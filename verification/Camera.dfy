/** Reduction of a captured frame: an area-averaged 96 x 96 luma image of the centred square
    crop, and a box-averaged grayscale snapshot of the whole frame. */
module Camera {
  import opened Bytes
  import P = PngStream

  const INPUT := 96
  const SNAPSHOT_MAX_W := 320
  const SNAPSHOT_MAX_H := 180

  datatype PixFmt = Rgb565 | Yuyv | Bgrx32

  datatype Cam = Cam(fmt: PixFmt, width: nat, height: nat, pitch: nat)

  function Bpp(f: PixFmt): nat {
    if f.Bgrx32? then 4 else 2
  }

  // A frame buffer large enough for its format.
  predicate FrameOk(c: Cam, buf: seq<byte>) {
    c.width * Bpp(c.fmt) <= c.pitch && c.height * c.pitch <= |buf|
  }

  // ---------- luma ----------

  function Weighted(r: byte, g: byte, b: byte): byte {
    (r as int * 77 + g as int * 150 + b as int * 29) / 256
  }

  function Rgb565Luma(lo: byte, hi: byte): byte {
    var v := lo as int + 0x100 * (hi as int);
    Weighted(v / 2048 % 32 * 8, v / 32 % 64 * 4, v % 32 * 8)
  }

  lemma PixelInFrame(c: Cam, n: nat, x: nat, y: nat)
    requires c.width * Bpp(c.fmt) <= c.pitch && c.height * c.pitch <= n && x < c.width && y < c.height
    ensures y * c.pitch + x * Bpp(c.fmt) + Bpp(c.fmt) <= n
  {
    assert (x + 1) * Bpp(c.fmt) <= c.width * Bpp(c.fmt);
    assert (y + 1) * c.pitch <= c.height * c.pitch;
  }

  // The luma of pixel (x, y): every read is inside the frame buffer.
  function Luma(c: Cam, buf: seq<byte>, x: nat, y: nat): byte
    requires FrameOk(c, buf) && x < c.width && y < c.height
  {
    PixelInFrame(c, |buf|, x, y);
    var at := y * c.pitch + x * Bpp(c.fmt);
    match c.fmt
    case Yuyv => buf[at]
    case Bgrx32 => Weighted(buf[at + 2], buf[at + 1], buf[at])
    case Rgb565 => Rgb565Luma(buf[at], buf[at + 1])
  }

  /** RGB565 packs five bits of red, six of green and five of blue, from the top, low byte first. */
  lemma Rgb565Fields(r: nat, g: nat, b: nat, lo: byte, hi: byte)
    requires r < 32 && g < 64 && b < 32 && lo as int + 0x100 * hi as int == 2048 * r + 32 * g + b
    ensures Rgb565Luma(lo, hi) as int == (616 * r + 600 * g + 232 * b) / 256
  {
    Fields565(r, g, b);
  }

  lemma Fields565(r: nat, g: nat, b: nat)
    requires r < 32 && g < 64 && b < 32
    ensures var v := 2048 * r + 32 * g + b; v / 2048 % 32 == r && v / 32 % 64 == g && v % 32 == b
  {
    var v := 2048 * r + 32 * g + b;
    assert v / 32 == 64 * r + g;
    assert v / 2048 == r;
  }

  /** Which bytes of a frame make the luma of a pixel whose line starts at p, in each format. */
  lemma YuyvLuma(c: Cam, buf: seq<byte>, x: nat, y: nat, p: nat)
    requires FrameOk(c, buf) && x < c.width && y < c.height && p == y * c.pitch && c.fmt == Yuyv
    ensures p + 2 * x < |buf| && Luma(c, buf, x, y) == buf[p + 2 * x]
  {
    PixelInFrame(c, |buf|, x, y);
  }

  lemma RgbLuma(c: Cam, buf: seq<byte>, x: nat, y: nat, p: nat)
    requires FrameOk(c, buf) && x < c.width && y < c.height && p == y * c.pitch && c.fmt == Rgb565
    ensures p + 2 * x + 1 < |buf| && Luma(c, buf, x, y) == Rgb565Luma(buf[p + 2 * x], buf[p + 2 * x + 1])
  {
    PixelInFrame(c, |buf|, x, y);
    hide Rgb565Luma;
  }

  lemma BgrxLuma(c: Cam, buf: seq<byte>, x: nat, y: nat, p: nat)
    requires FrameOk(c, buf) && x < c.width && y < c.height && p == y * c.pitch && c.fmt == Bgrx32
    ensures p + 4 * x + 3 < |buf|
    ensures var blue, green, red := buf[p + 4 * x] as int, buf[p + 4 * x + 1] as int, buf[p + 4 * x + 2] as int;
      Luma(c, buf, x, y) as int == (77 * red + 150 * green + 29 * blue) / 256
  {
    PixelInFrame(c, |buf|, x, y);
    assert Luma(c, buf, x, y) == Weighted(buf[p + 4 * x + 2], buf[p + 4 * x + 1], buf[p + 4 * x]);
  }

  // ---------- boxes ----------

  function RowSum(c: Cam, buf: seq<byte>, y: nat, x0: nat, x1: nat): nat
    requires FrameOk(c, buf) && y < c.height && x0 <= x1 <= c.width
  {
    if x0 == x1 then 0 else RowSum(c, buf, y, x0, x1 - 1) + Luma(c, buf, x1 - 1, y)
  }

  function BoxSum(c: Cam, buf: seq<byte>, x0: nat, x1: nat, y0: nat, y1: nat): nat
    requires FrameOk(c, buf) && x0 <= x1 <= c.width && y0 <= y1 <= c.height
    decreases y1
  {
    if y0 == y1 then 0 else BoxSum(c, buf, x0, x1, y0, y1 - 1) + RowSum(c, buf, y1 - 1, x0, x1)
  }

  // All luma values of a box lie between lo and hi.
  ghost predicate Between(c: Cam, buf: seq<byte>, x0: nat, x1: nat, y0: nat, y1: nat, lo: nat, hi: nat)
    requires FrameOk(c, buf) && x0 <= x1 <= c.width && y0 <= y1 <= c.height
  {
    forall x, y :: x0 <= x < x1 && y0 <= y < y1 ==> lo <= Luma(c, buf, x, y) <= hi
  }

  lemma {:induction false} RowBounds(c: Cam, buf: seq<byte>, y: nat, x0: nat, x1: nat, lo: nat, hi: nat)
    requires FrameOk(c, buf) && y < c.height && x0 <= x1 <= c.width
    requires forall x :: x0 <= x < x1 ==> lo <= Luma(c, buf, x, y) <= hi
    ensures (x1 - x0) * lo <= RowSum(c, buf, y, x0, x1) <= (x1 - x0) * hi
    decreases x1
  {
    hide Luma;
    if x0 < x1 {
      RowBounds(c, buf, y, x0, x1 - 1, lo, hi);
      assert (x1 - x0) * lo == (x1 - 1 - x0) * lo + lo && (x1 - x0) * hi == (x1 - 1 - x0) * hi + hi;
    }
  }

  lemma {:induction false} BoxBounds(c: Cam, buf: seq<byte>, x0: nat, x1: nat, y0: nat, y1: nat, lo: nat, hi: nat)
    requires FrameOk(c, buf) && x0 <= x1 <= c.width && y0 <= y1 <= c.height
    requires Between(c, buf, x0, x1, y0, y1, lo, hi)
    ensures (y1 - y0) * ((x1 - x0) * lo) <= BoxSum(c, buf, x0, x1, y0, y1) <= (y1 - y0) * ((x1 - x0) * hi)
    decreases y1
  {
    hide Luma, FrameOk;
    if y0 < y1 {
      BoxBounds(c, buf, x0, x1, y0, y1 - 1, lo, hi);
      RowBounds(c, buf, y1 - 1, x0, x1, lo, hi);
      var a, b := (x1 - x0) * lo, (x1 - x0) * hi;
      assert (y1 - y0) * a == (y1 - 1 - y0) * a + a && (y1 - y0) * b == (y1 - 1 - y0) * b + b;
    }
  }

  function BoxSize(w: nat, h: nat): (n: nat)
    requires w > 0 && h > 0
    ensures n > 0
  {
    h * w
  }

  function Average(c: Cam, buf: seq<byte>, x0: nat, x1: nat, y0: nat, y1: nat): nat
    requires FrameOk(c, buf) && x0 < x1 <= c.width && y0 < y1 <= c.height
  {
    Quotient(BoxSum(c, buf, x0, x1, y0, y1), BoxSize(x1 - x0, y1 - y0))
  }

  function Quotient(s: nat, n: nat): nat
    requires n > 0
  {
    s / n
  }

  lemma QuotientBetween(s: nat, n: nat, lo: nat, hi: nat)
    requires n > 0 && n * lo <= s <= n * hi
    ensures lo <= s / n <= hi
  {
    var q := s / n;
    assert s == n * q + s % n;
    assert q < lo ==> n * (q + 1) <= n * lo;
    assert q > hi ==> n * q >= n * (hi + 1);
  }

  /** Every averaged pixel lies between the darkest and the brightest pixel of its box. */
  lemma AverageIsBetween(c: Cam, buf: seq<byte>, x0: nat, x1: nat, y0: nat, y1: nat, lo: nat, hi: nat)
    requires FrameOk(c, buf) && x0 < x1 <= c.width && y0 < y1 <= c.height
    requires Between(c, buf, x0, x1, y0, y1, lo, hi)
    ensures lo <= Average(c, buf, x0, x1, y0, y1) <= hi
  {
    hide FrameOk, Luma, BoxSum, Between;
    BoxBounds(c, buf, x0, x1, y0, y1, lo, hi);
    SumBetween(BoxSum(c, buf, x0, x1, y0, y1), x1 - x0, y1 - y0, lo, hi);
  }

  lemma SumBetween(s: nat, w: nat, h: nat, lo: nat, hi: nat)
    requires w > 0 && h > 0 && h * (w * lo) <= s <= h * (w * hi)
    ensures lo <= Quotient(s, BoxSize(w, h)) <= hi
  {
    assert h * (w * lo) == h * w * lo && h * (w * hi) == h * w * hi;
    QuotientBetween(s, h * w, lo, hi);
  }

  // Every pixel but (x, y) is black.
  ghost predicate Lone(c: Cam, buf: seq<byte>, x: nat, y: nat)
    requires FrameOk(c, buf)
  {
    forall i, j :: 0 <= i < c.width && 0 <= j < c.height && (i != x || j != y) ==> Luma(c, buf, i, j) == 0
  }

  lemma {:induction false} LoneInRow(c: Cam, buf: seq<byte>, x: nat, y: nat, j: nat, x0: nat, x1: nat)
    requires FrameOk(c, buf) && x < c.width && y < c.height && Lone(c, buf, x, y) && j < c.height && x0 <= x1 <= c.width
    ensures RowSum(c, buf, j, x0, x1) == if j == y && x0 <= x < x1 then Luma(c, buf, x, y) as nat else 0
    decreases x1
  {
    hide Luma, FrameOk;
    if x0 < x1 {
      LoneInRow(c, buf, x, y, j, x0, x1 - 1);
    }
  }

  // A box sums up to its lone pixel, if it is in there.
  lemma {:induction false} LoneInBox(c: Cam, buf: seq<byte>, x: nat, y: nat, x0: nat, x1: nat, y0: nat, y1: nat)
    requires FrameOk(c, buf) && x < c.width && y < c.height && Lone(c, buf, x, y) && x0 <= x1 <= c.width
    requires y0 <= y1 <= c.height
    ensures BoxSum(c, buf, x0, x1, y0, y1) == if x0 <= x < x1 && y0 <= y < y1 then Luma(c, buf, x, y) as nat else 0
    decreases y1
  {
    hide Luma, FrameOk, Lone;
    if y0 < y1 {
      LoneInBox(c, buf, x, y, x0, x1, y0, y1 - 1);
      LoneInRow(c, buf, x, y, y1 - 1, x0, x1);
    }
  }

  // ---------- the 96 x 96 partition ----------

  // Where output i starts in a square of `crop` pixels.
  function Cut(crop: nat, i: nat): nat {
    i * crop / INPUT
  }

  lemma CutBounds(crop: nat, i: nat)
    requires crop >= INPUT
    ensures Cut(crop, i) < Cut(crop, i + 1)
    ensures i <= INPUT ==> Cut(crop, i) <= crop
    ensures Cut(crop, 0) == 0 && Cut(crop, INPUT) == crop
  {
    assert (i + 1) * crop == i * crop + crop;
    assert i <= INPUT ==> i * crop <= INPUT * crop;
  }

  // The output that source line or column s belongs to.
  function Owner(crop: nat, s: nat): nat
    requires crop > 0
  {
    (INPUT * s + INPUT - 1) / crop
  }

  /** The boxes tile the crop: every source line belongs to exactly one output, and no output is
      empty. */
  lemma CutsPartition(crop: nat, s: nat, i: nat)
    requires crop >= INPUT && s < crop && i < INPUT
    ensures Cut(crop, i) < Cut(crop, i + 1) <= crop
    ensures Cut(crop, i) <= s < Cut(crop, i + 1) <==> i == Owner(crop, s)
    ensures Owner(crop, s) < INPUT
  {
    var o, t := Owner(crop, s), INPUT * s + INPUT - 1;
    CutBounds(crop, i);
    CutBounds(crop, i + 1);
    assert t == crop * o + t % crop;
    // i * crop / 96 <= s says i * crop <= t, and s < (i + 1) * crop / 96 says t < (i + 1) * crop.
    assert i * crop / INPUT <= s <==> i * crop <= t;
    assert s < (i + 1) * crop / INPUT <==> t < (i + 1) * crop;
    OwnerIs(crop, t, o, i);
    assert t < INPUT * crop;
    OwnerBelow(crop, t, o);
  }

  lemma OwnerIs(crop: nat, t: nat, o: nat, i: nat)
    requires crop > 0 && o == t / crop
    ensures i * crop <= t < (i + 1) * crop <==> i == o
  {
    assert t == o * crop + t % crop;
    assert i < o ==> (i + 1) * crop <= o * crop;
    assert i > o ==> i * crop >= (o + 1) * crop;
  }

  lemma OwnerBelow(crop: nat, t: nat, o: nat)
    requires crop > 0 && o == t / crop && t < INPUT * crop
    ensures o < INPUT
  {
    assert t == o * crop + t % crop;
    assert o >= INPUT ==> o * crop >= INPUT * crop;
  }

  /** In two dimensions: for every landscape frame of at least 96 lines, each pixel of the centred
      square contributes to exactly one output, and to none outside it. */
  lemma PixelContributesOnce(c: Cam, x: nat, y: nat, dx: nat, dy: nat)
    requires INPUT <= c.height <= c.width && dx < INPUT && dy < INPUT
    requires x < c.width && y < c.height
    ensures var x0 := (c.width - c.height) / 2;
      (x0 + Cut(c.height, dx) <= x < x0 + Cut(c.height, dx + 1) && Cut(c.height, dy) <= y < Cut(c.height, dy + 1))
      <==> (x0 <= x < x0 + c.height && dx == Owner(c.height, x - x0) && dy == Owner(c.height, y))
  {
    var x0 := (c.width - c.height) / 2;
    CutsPartition(c.height, y, dy);
    CutBounds(c.height, dx);
    CutBounds(c.height, dx + 1);
    if x0 <= x < x0 + c.height {
      CutsPartition(c.height, x - x0, dx);
    }
  }

  const U32_MOD := 0x1_0000_0000

  // The crop's first column as the source computes it, in 32 bits.
  function CropColumn(c: Cam): nat {
    var d: int := c.width - c.height;
    d % U32_MOD / 2
  }

  // Every column that frame_to_gray96 reads.
  predicate ColumnRead(c: Cam, x: nat) {
    CropColumn(c) <= x < CropColumn(c) + c.height
  }

  /** All columns read lie in the frame if and only if it is not a portrait frame: there the
      first column wraps around.  The capture accepts both. */
  lemma CropInsideIff(c: Cam)
    requires INPUT <= c.width < U32_MOD / 8 && INPUT <= c.height < U32_MOD / 8
    ensures (forall x: nat :: ColumnRead(c, x) ==> x < c.width) <==> c.height <= c.width
    ensures c.height <= c.width ==> CropColumn(c) == (c.width - c.height) / 2
  {
    if c.height <= c.width {
      assert CropColumn(c) == (c.width - c.height) / 2;
    } else {
      var d: int := c.width - c.height;
      assert d % U32_MOD == d + U32_MOD;
      assert ColumnRead(c, CropColumn(c));
    }
  }

  // ---------- the two reductions, as the source loops over the pixels ----------

  // One output pixel of the 96 x 96 image.
  function Gray96At(c: Cam, buf: seq<byte>, dx: nat, dy: nat): (v: nat)
    requires FrameOk(c, buf) && INPUT <= c.height <= c.width && dx < INPUT && dy < INPUT
  {
    CutBounds(c.height, dx);
    CutBounds(c.height, dx + 1);
    CutBounds(c.height, dy);
    CutBounds(c.height, dy + 1);
    var x0 := (c.width - c.height) / 2;
    Average(c, buf, x0 + Cut(c.height, dx), x0 + Cut(c.height, dx + 1), Cut(c.height, dy), Cut(c.height, dy + 1))
  }

  /** Where a lone pixel shows: in the output whose box it lies in, diluted by the size of the box,
      and in no other.  The box is the dx-th of 96 across the centred square and the dy-th down. */
  lemma LonePixelInGray(c: Cam, buf: seq<byte>, x: nat, y: nat, dx: nat, dy: nat, x0: nat, x1: nat, y0: nat, y1: nat)
    requires FrameOk(c, buf) && 96 <= c.height <= c.width && x < c.width && y < c.height && dx < 96 && dy < 96
    requires Lone(c, buf, x, y)
    requires x0 == (c.width - c.height) / 2 + dx * c.height / 96 && y0 == dy * c.height / 96
    requires x1 == (c.width - c.height) / 2 + (dx + 1) * c.height / 96 && y1 == (dy + 1) * c.height / 96
    ensures x0 < x1 && y0 < y1
    ensures Gray96At(c, buf, dx, dy) ==
      if x0 <= x < x1 && y0 <= y < y1 then Quotient(Luma(c, buf, x, y), BoxSize(x1 - x0, y1 - y0)) else 0
  {
    CutBounds(c.height, dx);
    CutBounds(c.height, dx + 1);
    CutBounds(c.height, dy);
    CutBounds(c.height, dy + 1);
    hide Luma, FrameOk, Lone, BoxSum, BoxSize, Quotient, Average, Gray96At;
    GrayAverage(c, buf, dx, dy, x0, x1, y0, y1);
    LoneAverage(c, buf, x, y, x0, x1, y0, y1);
  }

  lemma GrayAverage(c: Cam, buf: seq<byte>, dx: nat, dy: nat, x0: nat, x1: nat, y0: nat, y1: nat)
    requires FrameOk(c, buf) && 96 <= c.height <= c.width && dx < 96 && dy < 96
    requires x0 == (c.width - c.height) / 2 + Cut(c.height, dx) && y0 == Cut(c.height, dy)
    requires x1 == (c.width - c.height) / 2 + Cut(c.height, dx + 1) && y1 == Cut(c.height, dy + 1)
    requires x0 < x1 <= c.width && y0 < y1 <= c.height
    ensures Gray96At(c, buf, dx, dy) == Average(c, buf, x0, x1, y0, y1)
  {
    hide FrameOk, Average, Cut;
  }

  lemma LoneAverage(c: Cam, buf: seq<byte>, x: nat, y: nat, x0: nat, x1: nat, y0: nat, y1: nat)
    requires FrameOk(c, buf) && x < c.width && y < c.height && Lone(c, buf, x, y)
    requires x0 < x1 <= c.width && y0 < y1 <= c.height
    ensures Average(c, buf, x0, x1, y0, y1) ==
      if x0 <= x < x1 && y0 <= y < y1 then Quotient(Luma(c, buf, x, y), BoxSize(x1 - x0, y1 - y0)) else 0
  {
    hide Luma, FrameOk, Lone, BoxSum, BoxSize, Quotient;
    LoneInBox(c, buf, x, y, x0, x1, y0, y1);
    NoLight(x1 - x0, y1 - y0);
  }

  lemma NoLight(w: nat, h: nat)
    requires w > 0 && h > 0
    ensures Quotient(0, BoxSize(w, h)) == 0
  {
  }

  // The sum and the number of the pixels of one box.
  method SumBox(c: Cam, buf: array<byte>, x0: nat, x1: nat, y0: nat, y1: nat) returns (acc: nat, n: nat)
    requires FrameOk(c, buf[..]) && x0 <= x1 <= c.width && y0 <= y1 <= c.height
    ensures acc == BoxSum(c, buf[..], x0, x1, y0, y1) && n == (y1 - y0) * (x1 - x0)
    ensures x0 < x1 && y0 < y1 ==> n == BoxSize(x1 - x0, y1 - y0)
  {
    hide FrameOk, Luma;
    acc, n := 0, 0;
    for y := y0 to y1
      invariant acc == BoxSum(c, buf[..], x0, x1, y0, y) && n == (y - y0) * (x1 - x0)
    {
      ghost var before, n0 := acc, n;
      for x := x0 to x1
        invariant acc == before + RowSum(c, buf[..], y, x0, x) && n == n0 + (x - x0)
      {
        acc := acc + Luma(c, buf[..], x, y);
        n := n + 1;
      }
      assert (y + 1 - y0) * (x1 - x0) == (y - y0) * (x1 - x0) + (x1 - x0);
    }
  }

  lemma AverageIsByte(c: Cam, buf: seq<byte>, x0: nat, x1: nat, y0: nat, y1: nat)
    requires FrameOk(c, buf) && x0 < x1 <= c.width && y0 < y1 <= c.height
    ensures Average(c, buf, x0, x1, y0, y1) <= 255
  {
    assert Between(c, buf, x0, x1, y0, y1, 0, 255);
    hide FrameOk, Luma, Average, Between;
    AverageIsBetween(c, buf, x0, x1, y0, y1, 0, 255);
  }

  // One output pixel.  No box is empty, so the source's guard against empty boxes never fires.
  method GrayPixel(c: Cam, buf: array<byte>, dx: nat, dy: nat) returns (v: byte)
    requires FrameOk(c, buf[..]) && INPUT <= c.height <= c.width && dx < INPUT && dy < INPUT
    ensures v as int == Gray96At(c, buf[..], dx, dy)
  {
    hide FrameOk, Luma, BoxSum, Cut, BoxSize;
    var crop, x0 := c.height, (c.width - c.height) / 2;
    CutBounds(crop, dy);
    CutBounds(crop, dy + 1);
    CutBounds(crop, dx);
    CutBounds(crop, dx + 1);
    var sy0, sy1 := Cut(crop, dy), Cut(crop, dy + 1);
    var sx0, sx1 := x0 + Cut(crop, dx), x0 + Cut(crop, dx + 1);
    assert sx0 < sx1 && sy0 < sy1;
    var acc, n := SumBox(c, buf, sx0, sx1, sy0, sy1);
    AverageIsByte(c, buf[..], sx0, sx1, sy0, sy1);
    v := acc / n;
  }

  /** The centred square, averaged down to 96 x 96. */
  method FrameToGray96(c: Cam, buf: array<byte>, gray: array<byte>)
    requires FrameOk(c, buf[..]) && INPUT <= c.height <= c.width && gray.Length == INPUT * INPUT && gray != buf
    modifies gray
    ensures forall dx, dy :: 0 <= dx < INPUT && 0 <= dy < INPUT ==>
      gray[dy * INPUT + dx] as int == Gray96At(c, buf[..], dx, dy)
  {
    hide FrameOk, Gray96At;
    ghost var frame := buf[..];
    for dy := 0 to INPUT
      invariant buf[..] == frame
      invariant forall x, y :: 0 <= x < INPUT && 0 <= y < dy ==> gray[y * INPUT + x] as int == Gray96At(c, frame, x, y)
    {
      for dx := 0 to INPUT
        invariant buf[..] == frame
        invariant forall x, y :: 0 <= x < INPUT && 0 <= y < dy ==>
          gray[y * INPUT + x] as int == Gray96At(c, frame, x, y)
        invariant forall x :: 0 <= x < dx ==> gray[dy * INPUT + x] as int == Gray96At(c, frame, x, dy)
      {
        var v := GrayPixel(c, buf, dx, dy);
        gray[dy * INPUT + dx] := v;
      }
    }
  }

  // ---------- the snapshot ----------

  function CeilDiv(n: nat, d: nat): nat
    requires d > 0
  {
    (n + d - 1) / d
  }

  function Decimation(c: Cam): nat {
    var a, b := CeilDiv(c.width, SNAPSHOT_MAX_W), CeilDiv(c.height, SNAPSHOT_MAX_H);
    if a > b then a else b
  }

  /** The decimation is the least factor by which the frame fits 320 x 180. */
  lemma DecimationIsLeast(c: Cam, d: nat)
    ensures Decimation(c) <= d <==> c.width <= 320 * d && c.height <= 180 * d
  {
  }

  lemma Decimated(n: nat, d: nat, max: nat)
    requires max > 0 && d > 0 && d >= CeilDiv(n, max)
    ensures n / d <= max && n / d * d <= n
  {
    var q := n / d;
    assert n == d * q + n % d;
    assert n <= max * d by {
      var k := CeilDiv(n, max);
      assert n + max - 1 == max * k + (n + max - 1) % max;
      assert max * k <= max * d;
    }
    assert q > max ==> d * q >= d * (max + 1);
  }

  /** Any frame whose decimation leaves at least one pixel gives a snapshot that fits the frame
      buffer, whose encoding fits the PNG buffer. */
  lemma SnapshotFits(c: Cam)
    requires c.width > 0 && c.height > 0
    requires var d := Decimation(c); d > 0 && c.width / d > 0 && c.height / d > 0
    ensures var d := Decimation(c); var w, h := c.width / d, c.height / d;
      && w <= SNAPSHOT_MAX_W && h <= SNAPSHOT_MAX_H && w * h <= SNAPSHOT_MAX_W * SNAPSHOT_MAX_H
      && P.PngSize(w, h) <= SNAPSHOT_MAX_W * SNAPSHOT_MAX_H + SNAPSHOT_MAX_H + 128
  {
    var d := Decimation(c);
    Decimated(c.width, d, SNAPSHOT_MAX_W);
    Decimated(c.height, d, SNAPSHOT_MAX_H);
    var w, h := c.width / d, c.height / d;
    assert w * h <= SNAPSHOT_MAX_W * h;
    P.MaxSizeSuffices(w, h);
    assert (w + 1) * h == w * h + h;
  }

  lemma InGrid(n: nat, d: nat, i: nat)
    requires d > 0 && i < n / d
    ensures i * d < (i + 1) * d == i * d + d <= n
  {
    var q := n / d;
    assert n == q * d + n % d;
    RowsBelow(i, q, d);
  }

  lemma RowsBelow(i: nat, q: nat, d: nat)
    requires d > 0 && i < q
    ensures i * d + d == (i + 1) * d <= q * d
  {
    assert q * d == (i + 1) * d + (q - (i + 1)) * d;
  }

  function SnapAt(c: Cam, buf: seq<byte>, d: nat, dx: nat, dy: nat): (v: byte)
    requires FrameOk(c, buf) && d > 0 && dx < c.width / d && dy < c.height / d
  {
    InGrid(c.width, d, dx);
    InGrid(c.height, d, dy);
    AverageIsByte(c, buf, dx * d, (dx + 1) * d, dy * d, (dy + 1) * d);
    Average(c, buf, dx * d, (dx + 1) * d, dy * d, (dy + 1) * d)
  }

  // The first n pixels of row dy, and the first m rows.
  function SnapRow(c: Cam, buf: seq<byte>, d: nat, dy: nat, n: nat): (r: seq<byte>)
    requires FrameOk(c, buf) && d > 0 && n <= c.width / d && dy < c.height / d
    ensures |r| == n
  {
    if n == 0 then [] else SnapRow(c, buf, d, dy, n - 1) + [SnapAt(c, buf, d, n - 1, dy)]
  }

  function SnapRows(c: Cam, buf: seq<byte>, d: nat, m: nat): (r: seq<byte>)
    requires FrameOk(c, buf) && d > 0 && m <= c.height / d
    ensures |r| == m * (c.width / d)
  {
    if m == 0 then [] else
      assert m * (c.width / d) == (m - 1) * (c.width / d) + c.width / d;
      SnapRows(c, buf, d, m - 1) + SnapRow(c, buf, d, m - 1, c.width / d)
  }

  lemma {:induction false} SnapRowAt(c: Cam, buf: seq<byte>, d: nat, dy: nat, n: nat, dx: nat)
    requires FrameOk(c, buf) && d > 0 && n <= c.width / d && dy < c.height / d && dx < n
    ensures SnapRow(c, buf, d, dy, n)[dx] == SnapAt(c, buf, d, dx, dy)
    decreases n
  {
    hide FrameOk, SnapAt;
    if dx < n - 1 {
      SnapRowAt(c, buf, d, dy, n - 1, dx);
    }
  }

  function Offset(w: nat, dx: nat, dy: nat): nat {
    dy * w + dx
  }

  lemma OffsetBelow(w: nat, m: nat, dx: nat, dy: nat)
    requires dx < w && dy < m
    ensures Offset(w, dx, dy) < m * w && m * w == (m - 1) * w + w
    ensures dy < m - 1 ==> Offset(w, dx, dy) < (m - 1) * w
  {
    RowsBelow(dy, m, w);
    if dy < m - 1 {
      RowsBelow(dy, m - 1, w);
    }
  }

  // Pixel (dx, dy) of the snapshot is dy rows and dx pixels from its start.
  lemma {:induction false} SnapRowsAt(c: Cam, buf: seq<byte>, d: nat, m: nat, dx: nat, dy: nat)
    requires FrameOk(c, buf) && d > 0 && m <= c.height / d && dx < c.width / d && dy < m
    ensures Offset(c.width / d, dx, dy) < |SnapRows(c, buf, d, m)|
    ensures SnapRows(c, buf, d, m)[Offset(c.width / d, dx, dy)] == SnapAt(c, buf, d, dx, dy)
    decreases m
  {
    OffsetBelow(c.width / d, m, dx, dy);
    assert dy == m - 1 ==> Offset(c.width / d, dx, dy) == (m - 1) * (c.width / d) + dx;
    hide FrameOk, SnapAt, Offset;
    if dy < m - 1 {
      SnapRowsAt(c, buf, d, m - 1, dx, dy);
    } else {
      SnapRowAt(c, buf, d, dy, c.width / d, dx);
    }
  }

  /** Where a lone pixel shows in the snapshot: at (x / d, y / d), diluted by the size of a box. */
  lemma LonePixelInSnapshot(c: Cam, buf: seq<byte>, d: nat, x: nat, y: nat, dx: nat, dy: nat)
    requires FrameOk(c, buf) && d > 0 && dx < c.width / d && dy < c.height / d && x < c.width && y < c.height
    requires Lone(c, buf, x, y)
    ensures SnapAt(c, buf, d, dx, dy) as nat ==
      if dx * d <= x < dx * d + d && dy * d <= y < dy * d + d then Quotient(Luma(c, buf, x, y), BoxSize(d, d)) else 0
  {
    hide Luma, FrameOk, Lone, BoxSum;
    InGrid(c.width, d, dx);
    InGrid(c.height, d, dy);
    LoneInBox(c, buf, x, y, dx * d, (dx + 1) * d, dy * d, (dy + 1) * d);
  }

  // One decimated pixel.
  method SnapPixel(c: Cam, buf: array<byte>, d: nat, dx: nat, dy: nat) returns (v: byte)
    requires FrameOk(c, buf[..]) && d > 0 && dx < c.width / d && dy < c.height / d
    ensures v == SnapAt(c, buf[..], d, dx, dy)
  {
    hide FrameOk, Luma, BoxSum;
    InGrid(c.width, d, dx);
    InGrid(c.height, d, dy);
    var acc, _ := SumBox(c, buf, dx * d, (dx + 1) * d, dy * d, (dy + 1) * d);
    AverageIsByte(c, buf[..], dx * d, (dx + 1) * d, dy * d, (dy + 1) * d);
    v := acc / (d * d);
  }

  lemma RowsFit(w: nat, h: nat, dy: nat)
    requires w <= SNAPSHOT_MAX_W && h <= SNAPSHOT_MAX_H && dy < h
    ensures dy * w + w == (dy + 1) * w <= SNAPSHOT_MAX_W * SNAPSHOT_MAX_H
  {
    assert (dy + 1) * w <= (dy + 1) * SNAPSHOT_MAX_W;
  }

  /** The whole frame, averaged over d x d boxes, row by row. */
  method FrameToSnapshot(c: Cam, buf: array<byte>, snap: array<byte>) returns (w: nat, h: nat)
    requires FrameOk(c, buf[..]) && c.width > 0 && c.height > 0 && snap != buf
    requires snap.Length == SNAPSHOT_MAX_W * SNAPSHOT_MAX_H
    modifies snap
    ensures var d := Decimation(c);
      && d > 0 && w == c.width / d && h == c.height / d
      && h * w <= snap.Length && snap[..h * w] == SnapRows(c, buf[..], d, h)
      && snap[h * w..] == old(snap[h * w..])
  {
    hide FrameOk, SnapAt;
    var d := Decimation(c);
    Decimated(c.width, d, SNAPSHOT_MAX_W);
    Decimated(c.height, d, SNAPSHOT_MAX_H);
    w, h := c.width / d, c.height / d;
    ghost var frame := buf[..];
    for dy := 0 to h
      invariant buf[..] == frame && dy * w <= snap.Length && snap[..dy * w] == SnapRows(c, frame, d, dy)
      invariant snap[dy * w..] == old(snap[dy * w..])
    {
      RowsFit(w, h, dy);
      ghost var done := SnapRows(c, frame, d, dy);
      for dx := 0 to w
        invariant buf[..] == frame && snap[..dy * w + dx] == done + SnapRow(c, frame, d, dy, dx)
        invariant snap[dy * w + dx..] == old(snap[dy * w + dx..])
      {
        var v := SnapPixel(c, buf, d, dx, dy);
        snap[dy * w + dx] := v;
      }
    }
    assert h * w <= snap.Length;
  }
}
