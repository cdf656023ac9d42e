/** The IOTM blob of the tiny classifier: header, then the weights as little-endian 32-bit words
    in the order W1 row by row, b1, W2 row by row, b2. */
module MlpBlob {
  import opened Bytes
  import opened CrcDetection
  import opened MlpNet

  const IOTM_MAGIC: seq<byte> := [0x49, 0x4F, 0x54, 0x4D]
  const FMT_VER: u16 := 1
  const MAX_IN := 4
  const MAX_HID := 16
  const MAX_OUT := 4
  const HDR_LEN := 64
  const MAX_BLOB := 768
  const LABEL_LEN := 12
  const LABELS_LEN := 48

  // Weights are IEEE single-precision bit patterns; what they mean is a parameter elsewhere.
  type Word = u32

  // A label's length in characters, and its encoding, in which a character is one byte or more.
  datatype LabelText = LabelText(chars: nat, utf8: seq<byte>)
  type Label = l: LabelText | l.chars <= |l.utf8| witness LabelText(0, [])

  datatype Model = Model(ver: u16, labels: seq<Label>, ledMask: byte,
                         w1: seq<seq<Word>>, b1: seq<Word>, w2: seq<seq<Word>>, b2: seq<Word>)

  function NIn(m: Model): nat {
    if m.w1 == [] then 0 else |m.w1[0]|
  }

  // Rectangular matrices, and what the packing tool asserts of sizes and labels.
  predicate Packable(m: Model) {
    && m.w1 != [] && |m.w1| == |m.b1| && |m.w2| == |m.b2|
    && (forall i :: 0 <= i < |m.w1| ==> |m.w1[i]| == NIn(m))
    && (forall i :: 0 <= i < |m.w2| ==> |m.w2[i]| == |m.b1|)
    && NIn(m) <= MAX_IN && |m.b1| <= MAX_HID && |m.b2| <= MAX_OUT
    && |m.labels| == |m.b2| && forall i :: 0 <= i < |m.labels| ==> m.labels[i].chars < LABEL_LEN
  }

  function FlatRows(rows: seq<seq<Word>>): seq<Word> {
    if rows == [] then [] else rows[0] + FlatRows(rows[1..])
  }

  function Flat(m: Model): seq<Word> {
    FlatRows(m.w1) + (m.b1 + (FlatRows(m.w2) + m.b2))
  }

  function WordBytes(ws: seq<Word>): (s: seq<byte>)
    ensures |s| == 4 * |ws|
  {
    if ws == [] then [] else Le32(ws[0]) + WordBytes(ws[1..])
  }

  // Padded with zeros up to n bytes; nothing is cut off.
  function Padded(t: seq<byte>, n: nat): (s: seq<byte>)
    ensures |s| == if |t| < n then n else |t|
    ensures s[..|t|] == t && forall k :: |t| <= k < |s| ==> s[k] == 0
  {
    t + Fill(0, if |t| < n then n - |t| else 0)
  }

  function Labels(ls: seq<Label>): seq<byte> {
    if ls == [] then [] else Padded(ls[0].utf8, LABEL_LEN) + Labels(ls[1..])
  }

  function LabelField(ls: seq<Label>): seq<byte> {
    Padded(Labels(ls), LABELS_LEN)
  }

  // The labels keep to their field; the tool counts characters and does not check this.
  predicate LabelsFit(m: Model) {
    |Labels(m.labels)| <= LABELS_LEN
  }

  function Header(m: Model, crc: u32): (s: seq<byte>)
    requires Packable(m)
    ensures |s| == if LabelsFit(m) then HDR_LEN else HDR_LEN + |Labels(m.labels)| - LABELS_LEN
  {
    IOTM_MAGIC + Le16(FMT_VER) + Le16(m.ver) + [NIn(m), |m.b1|, |m.b2|, m.ledMask] + LabelField(m.labels) + Le32(crc)
  }

  function Pack(m: Model): seq<byte>
    requires Packable(m)
  {
    var w := WordBytes(Flat(m));
    Header(m, Crc32(w)) + w
  }

  // The packing tool grows the list of weights row by row.
  method PackModel(m: Model) returns (blob: seq<byte>)
    requires Packable(m)
    ensures blob == Pack(m)
  {
    hide Header, WordBytes, Crc32, Packable, Fill;
    var weights := [];
    for i := 0 to |m.w1|
      invariant weights + FlatRows(m.w1[i..]) == FlatRows(m.w1)
    {
      weights := weights + m.w1[i];
    }
    assert weights + [] == weights == FlatRows(m.w1);
    weights := weights + m.b1;
    ghost var upTo := weights;
    for i := 0 to |m.w2|
      invariant weights + FlatRows(m.w2[i..]) == upTo + FlatRows(m.w2)
    {
      weights := weights + m.w2[i];
    }
    assert weights + [] == weights == FlatRows(m.w1) + m.b1 + FlatRows(m.w2);
    weights := weights + m.b2;
    assert weights == Flat(m);
    var wbytes := WordBytes(weights);
    blob := Header(m, Crc32(wbytes)) + wbytes;
  }

  // ---------- validation ----------

  // rows * cols, row by row.
  function Area(rows: nat, cols: nat): nat {
    if rows == 0 then 0 else cols + Area(rows - 1, cols)
  }

  lemma {:induction false} AreaIsProduct(rows: nat, cols: nat)
    ensures Area(rows, cols) == rows * cols
  {
    if rows > 0 {
      AreaIsProduct(rows - 1, cols);
    }
  }

  function WeightCount(nIn: nat, nHid: nat, nOut: nat): nat {
    Area(nHid, nIn) + nHid + Area(nOut, nHid) + nOut
  }

  // The weight section's length as the firmware computes it.
  function WeightsLen(nIn: nat, nHid: nat, nOut: nat): nat {
    4 * (nHid * nIn + nHid + nOut * nHid + nOut)
  }

  lemma WeightsLenIs(nIn: nat, nHid: nat, nOut: nat)
    ensures WeightsLen(nIn, nHid, nOut) == 4 * WeightCount(nIn, nHid, nOut)
  {
    AreaIsProduct(nHid, nIn);
    AreaIsProduct(nOut, nHid);
  }

  datatype Verdict = Valid | TooShort | BadMagic | BadVersion | DimsOutOfRange | LengthMismatch | CrcMismatch

  function Validate(b: seq<byte>): Verdict {
    if |b| < HDR_LEN then TooShort
    else if b[..4] != IOTM_MAGIC then BadMagic
    else if GetLe16(b, 4) != FMT_VER then BadVersion
    else if b[8] < 1 || b[8] > MAX_IN || b[9] < 1 || b[9] > MAX_HID || b[10] < 1 || b[10] > MAX_OUT then DimsOutOfRange
    else if |b| != HDR_LEN + WeightsLen(b[8], b[9], b[10]) then LengthMismatch
    else if Crc32(b[HDR_LEN..]) != GetLe32(b, 60) then CrcMismatch
    else Valid
  }

  lemma {:induction false} FlatRowsSize(rows: seq<seq<Word>>, n: nat)
    requires forall i :: 0 <= i < |rows| ==> |rows[i]| == n
    ensures |FlatRows(rows)| == Area(|rows|, n)
  {
    if rows != [] {
      FlatRowsSize(rows[1..], n);
    }
  }

  lemma FlatSize(m: Model)
    requires Packable(m)
    ensures |Flat(m)| == WeightCount(NIn(m), |m.b1|, |m.b2|)
  {
    FlatRowsSize(m.w1, NIn(m));
    FlatRowsSize(m.w2, |m.b1|);
  }

  lemma FixedFields(m: Model, crc: u32, rest: seq<byte>)
    requires Packable(m)
    ensures var b := Header(m, crc) + rest;
      && b[..4] == IOTM_MAGIC && GetLe16(b, 4) == FMT_VER && GetLe16(b, 6) == m.ver
      && b[8] == NIn(m) && b[9] == |m.b1| && b[10] == |m.b2| && b[11] == m.ledMask
  {
    hide GetLe16, GetLe32, Le16, Le32, LabelField, LabelsFit;
    var b, h := Header(m, crc) + rest, Header(m, crc);
    assert h[..4] == IOTM_MAGIC && h[4..6] == Le16(FMT_VER) && h[6..8] == Le16(m.ver);
    assert b[..4] == h[..4] && b[4..6] == h[4..6] && b[6..8] == h[6..8];
    Le16At(FMT_VER, b, 4);
    Le16At(m.ver, b, 6);
  }

  lemma HeaderFields(m: Model, crc: u32, rest: seq<byte>)
    requires Packable(m) && LabelsFit(m)
    ensures var b := Header(m, crc) + rest;
      && b[12..60] == LabelField(m.labels) && GetLe32(b, 60) == crc && b[HDR_LEN..] == rest
      && b[8] == NIn(m) && b[9] == |m.b1| && b[10] == |m.b2|
  {
    FixedFields(m, crc, rest);
    hide GetLe16, GetLe32, Le16, Le32, LabelField, LabelsFit;
    var b, h := Header(m, crc) + rest, Header(m, crc);
    assert h[60..64] == Le32(crc) && b[60..64] == h[60..64];
    assert h[12..60] == LabelField(m.labels) && b[12..60] == h[12..60];
    Le32At(crc, b, 60);
  }

  // Short encodings keep to the field; for plain ASCII labels the tool's own check is enough.
  lemma {:induction false} ShortLabelsFit(ls: seq<Label>)
    requires forall i :: 0 <= i < |ls| ==> |ls[i].utf8| <= LABEL_LEN
    ensures |Labels(ls)| == LABEL_LEN * |ls|
  {
    if ls != [] {
      ShortLabelsFit(ls[1..]);
    }
  }

  // Label i is where the firmware looks for it.
  lemma {:induction false} LabelReadsBack(ls: seq<Label>, i: nat)
    requires i < |ls| && forall k :: 0 <= k < |ls| ==> |ls[k].utf8| < LABEL_LEN
    ensures LABEL_LEN * i + LABEL_LEN <= |Labels(ls)|
    ensures Labels(ls)[LABEL_LEN * i..LABEL_LEN * i + LABEL_LEN] == Padded(ls[i].utf8, LABEL_LEN)
  {
    hide Padded;
    ShortLabelsFit(ls);
    var s, first := Labels(ls), Padded(ls[0].utf8, LABEL_LEN);
    if i > 0 {
      ShortLabelsFit(ls[1..]);
      LabelReadsBack(ls[1..], i - 1);
      assert s[LABEL_LEN..] == Labels(ls[1..]);
      assert s[LABEL_LEN * i..LABEL_LEN * i + LABEL_LEN]
             == s[LABEL_LEN..][LABEL_LEN * (i - 1)..LABEL_LEN * (i - 1) + LABEL_LEN];
    }
  }

  /** The firmware accepts what the tool packs exactly when the model has at least one input and
      one output and the encoded labels keep to their field; the tool checks neither.  An
      accepted blob fits the blob buffer. */
  lemma PackValidates(m: Model)
    requires Packable(m)
    ensures Validate(Pack(m)) == Valid <==> NIn(m) >= 1 && |m.b2| >= 1 && LabelsFit(m)
    ensures LabelsFit(m) ==> |Pack(m)| <= MAX_BLOB
  {
    hide Crc32, GetLe16, GetLe32, Header, Flat, LabelField, Labels;
    var w := WordBytes(Flat(m));
    FlatSize(m);
    FixedFields(m, Crc32(w), w);
    WeightsLenIs(NIn(m), |m.b1|, |m.b2|);
    WeightsFit(NIn(m), |m.b1|, |m.b2|);
    if LabelsFit(m) {
      HeaderFields(m, Crc32(w), w);
    }
  }

  lemma WeightsFit(nIn: nat, nHid: nat, nOut: nat)
    requires nIn <= MAX_IN && nHid <= MAX_HID && nOut <= MAX_OUT
    ensures HDR_LEN + WeightsLen(nIn, nHid, nOut) <= MAX_BLOB
  {
    assert nHid * nIn <= MAX_HID * nIn;
    assert nOut * nHid <= MAX_OUT * nHid;
  }

  lemma ValidFits(b: seq<byte>)
    requires Validate(b) == Valid
    ensures |b| <= MAX_BLOB
  {
    hide Crc32;
    WeightsFit(b[8], b[9], b[10]);
  }

  // ---------- reading the weights back ----------

  // Word k of the weight section.
  function WordAt(b: seq<byte>, k: nat): Word
    requires HDR_LEN + 4 * k + 4 <= |b|
  {
    GetLe32(b, HDR_LEN + 4 * k)
  }

  // The weights of a blob, sliced into matrices the way the reference inference does.
  function WordsOf(b: seq<byte>): (ws: seq<Word>)
    requires Validate(b) == Valid
    ensures |ws| == WeightCount(b[8], b[9], b[10])
  {
    WeightsLenIs(b[8], b[9], b[10]);
    seq(WeightCount(b[8], b[9], b[10]), k requires 0 <= k < WeightCount(b[8], b[9], b[10]) => WordAt(b, k))
  }

  function Values(ws: seq<Word>, val: Word -> real): (r: seq<real>)
    ensures |r| == |ws|
  {
    seq(|ws|, k requires 0 <= k < |ws| => val(ws[k]))
  }

  // n rows of m elements from a flat sequence.
  function Rows<T>(flat: seq<T>, n: nat, m: nat): (rows: seq<seq<T>>)
    requires |flat| == Area(n, m)
    ensures |rows| == n && forall i :: 0 <= i < n ==> |rows[i]| == m
    decreases n
  {
    if n == 0 then []
    else
      [flat[..m]] + Rows(flat[m..], n - 1, m)
  }

  // Row i is the i-th stretch of m elements.
  lemma {:induction false} RowSlice<T>(flat: seq<T>, n: nat, m: nat, i: nat)
    requires |flat| == Area(n, m) && i < n
    ensures Area(i, m) + m <= |flat| && Rows(flat, n, m)[i] == flat[Area(i, m)..Area(i, m) + m]
    decreases n
  {
    if i > 0 {
      RowSlice(flat[m..], n - 1, m, i - 1);
    }
  }

  // The network that a flat weight list means.
  function NetOf(v: seq<real>, nIn: nat, nHid: nat, nOut: nat): (n: Net)
    requires |v| == WeightCount(nIn, nHid, nOut)
    ensures Shaped(n, nIn) && |n.b1| == nHid && |n.b2| == nOut
  {
    var o1, o2 := Area(nHid, nIn), Area(nHid, nIn) + nHid;
    var o3 := o2 + Area(nOut, nHid);
    Net(Rows(v[..o1], nHid, nIn), v[o1..o2], Rows(v[o2..o3], nOut, nHid), v[o3..])
  }

  // WordSlice has the induction; Dafny's own would only be in the way here.
  lemma {:induction false} WordBytesAt(ws: seq<Word>, head: seq<byte>, k: nat)
    requires |head| == HDR_LEN && k < |ws|
    ensures WordAt(head + WordBytes(ws), k) == ws[k]
  {
    WordSlice(ws, k);
    hide WordBytes, Le32, GetLe32;
    var b := head + WordBytes(ws);
    assert b[HDR_LEN + 4 * k..HDR_LEN + 4 * k + 4] == WordBytes(ws)[4 * k..4 * k + 4];
    Le32At(ws[k], b, HDR_LEN + 4 * k);
  }

  lemma {:induction false} WordSlice(ws: seq<Word>, k: nat)
    requires k < |ws|
    ensures WordBytes(ws)[4 * k..4 * k + 4] == Le32(ws[k])
  {
    hide Le32;
    var s := WordBytes(ws);
    if k > 0 {
      WordSlice(ws[1..], k - 1);
      assert s[4..] == WordBytes(ws[1..]);
      assert s[4 * k..4 * k + 4] == s[4..][4 * (k - 1)..4 * (k - 1) + 4];
    }
  }

  /** The weights read back from a packed model are the weights that were packed, in order. */
  lemma WordsReadBack(m: Model)
    requires Packable(m) && Validate(Pack(m)) == Valid
    ensures WordsOf(Pack(m)) == Flat(m)
    ensures Pack(m)[8] == NIn(m) && Pack(m)[9] == |m.b1| && Pack(m)[10] == |m.b2|
  {
    PackValidates(m);
    hide Crc32, GetLe32, GetLe16, Header, Flat, LabelField, LabelsFit, Validate;
    var b, w := Pack(m), WordBytes(Flat(m));
    FlatSize(m);
    HeaderFields(m, Crc32(w), w);
    forall k | 0 <= k < |Flat(m)|
      ensures WordAt(b, k) == Flat(m)[k]
    {
      WordBytesAt(Flat(m), Header(m, Crc32(w)), k);
    }
  }

  /** A packed blob, field by field. */
  lemma PackLayout(m: Model)
    requires Packable(m) && LabelsFit(m)
    ensures var b, w := Pack(m), WordBytes(Flat(m));
      && |b| == 64 + 4 * |Flat(m)| && b[..4] == Ascii("IOTM") && b[4..6] == [1, 0] && b[6..8] == Le16(m.ver)
      && b[8..12] == [NIn(m), |m.b1|, |m.b2|, m.ledMask] && b[12..60] == LabelField(m.labels)
      && b[60..64] == Le32(Crc32(w)) && b[64..] == w
  {
    MagicAndVersion();
    hide Crc32, Le16, Le32, Flat, WordBytes, LabelField, LabelsFit;
    var w := WordBytes(Flat(m));
    var h := Header(m, Crc32(w));
    assert h[..4] == IOTM_MAGIC && h[4..6] == Le16(FMT_VER) && h[6..8] == Le16(m.ver);
    assert h[8..12] == [NIn(m), |m.b1|, |m.b2|, m.ledMask] && h[12..60] == LabelField(m.labels);
    assert Pack(m)[..64] == h;
  }

  lemma MagicAndVersion()
    ensures Ascii("IOTM") == IOTM_MAGIC && Le16(FMT_VER) == [1, 0]
  {
  }

  // ---------- what a valid blob is ----------

  /** Over any bytes: the firmware accepts exactly the blobs with this text, version and
      dimensions, the length they prescribe, and the checksum of the weights in its place. */
  lemma ValidIff(b: seq<byte>)
    ensures Validate(b) == Valid <==>
      && |b| >= 64 && b[..4] == Ascii("IOTM") && b[4..6] == [1, 0]
      && 1 <= b[8] <= 4 && 1 <= b[9] <= 16 && 1 <= b[10] <= 4
      && |b| == 64 + 4 * (b[9] as int * b[8] as int + b[9] as int + b[10] as int * b[9] as int + b[10] as int)
      && b[60..64] == Le32(Crc32(b[64..]))
  {
    hide Crc32, GetLe16, GetLe32, Le32;
    assert Ascii("IOTM") == IOTM_MAGIC;
    assert Le16(1) == [1, 0];
    if |b| >= 64 {
      Le16Iff(1, b, 4);
      Le32Iff(Crc32(b[64..]), b, 60);
    }
  }

  /** A valid blob is a packed one: after its header come the words of its weights and nothing else. */
  lemma ValidIsPacked(b: seq<byte>)
    requires Validate(b) == Valid
    ensures b == b[..60] + Le32(Crc32(WordBytes(WordsOf(b)))) + WordBytes(WordsOf(b))
  {
    ValidIff(b);
    WeightsLenIs(b[8], b[9], b[10]);
    hide *;
    assert b[64..] == WordBytes(WordsOf(b)) by {
      SectionIsWords(b);
    }
    assert b == b[..60] + b[60..64] + b[64..];
  }

  lemma SectionIsWords(b: seq<byte>)
    requires Validate(b) == Valid
    ensures |b| >= HDR_LEN && b[HDR_LEN..] == WordBytes(WordsOf(b))
  {
    WeightsLenIs(b[8], b[9], b[10]);
    hide Crc32, GetLe32, Le32, WordBytes, Validate;
    var ws := WordsOf(b);
    forall j | 0 <= j < |b| - HDR_LEN
      ensures WordBytes(ws)[j] == b[HDR_LEN..][j]
    {
      SectionByte(b, ws, j / 4, j % 4);
    }
  }

  lemma SectionByte(b: seq<byte>, ws: seq<Word>, k: nat, r: nat)
    requires k < |ws| && r < 4 && HDR_LEN + 4 * |ws| <= |b| && ws[k] == WordAt(b, k)
    ensures WordBytes(ws)[4 * k + r] == b[HDR_LEN + 4 * k + r]
  {
    hide GetLe32, Le32, WordBytes;
    WordSlice(ws, k);
    Le32Iff(ws[k], b, HDR_LEN + 4 * k);
    assert WordBytes(ws)[4 * k..4 * k + 4][r] == b[HDR_LEN + 4 * k..HDR_LEN + 4 * k + 4][r];
  }

  // More inputs, more hidden units or more outputs take more weights.
  lemma WeightsLenGrows(nIn: nat, nHid: nat, nOut: nat, mIn: nat, mHid: nat, mOut: nat)
    requires nIn <= mIn && nHid <= mHid && nOut <= mOut && nHid >= 1
    requires nIn < mIn || nHid < mHid || nOut < mOut
    ensures WeightsLen(nIn, nHid, nOut) < WeightsLen(mIn, mHid, mOut)
  {
    assert nHid * nIn <= mHid * nIn <= mHid * mIn;
    assert nOut * nHid <= mOut * nHid <= mOut * mHid;
    assert nIn < mIn ==> mHid * nIn < mHid * mIn;
  }

  /** Which damage to a single byte the firmware detects: all but that to the model's version, its
      LED mask and its labels. */
  lemma AlteredByteIff(b: seq<byte>, i: nat, x: byte)
    requires Validate(b) == Valid && i < |b| && x != b[i]
    ensures Validate(b[i := x]) == Valid <==> 6 <= i < 8 || 11 <= i < 60
    ensures i >= 60 ==> Validate(b[i := x]) == CrcMismatch
  {
    var t := b[i := x];
    hide Crc32, GetLe16, GetLe32, WeightsLen, IOTM_MAGIC;
    if i < 4 {
      assert t[..4][i] != b[..4][i];
    } else if i < 6 {
      AlteredVersion(b, i, x);
    } else if 8 <= i < 11 {
      AlteredDims(b, i, x);
    } else if i < 60 {
      UnalteredFields(b, t);
    } else if i < 64 {
      UnalteredFields(b, t);
      AlteredWord(b, 60, i, x);
    } else {
      UnalteredFields(b, t);
      assert t[64..] == b[64..][i - 64 := x];
      AlteredByteShows(b[64..], i - 64, x);
    }
  }

  lemma AlteredVersion(b: seq<byte>, i: nat, x: byte)
    requires |b| >= HDR_LEN && 4 <= i < 6 && x != b[i]
    ensures GetLe16(b[i := x], 4) != GetLe16(b, 4) && b[i := x][..4] == b[..4]
  {
  }

  lemma AlteredDims(b: seq<byte>, i: nat, x: byte)
    requires Validate(b) == Valid && 8 <= i < 11 && i < |b| && x != b[i]
    ensures Validate(b[i := x]) != Valid
  {
    var t := b[i := x];
    if Validate(t) == Valid {
      hide Crc32, GetLe16, GetLe32, WeightsLen;
      if x < b[i] {
        WeightsLenGrows(t[8], t[9], t[10], b[8], b[9], b[10]);
      } else {
        WeightsLenGrows(b[8], b[9], b[10], t[8], t[9], t[10]);
      }
    }
  }

  // The fields that lie where two blobs agree.
  lemma UnalteredFields(b: seq<byte>, t: seq<byte>)
    requires |b| == |t| >= HDR_LEN && forall k :: 0 <= k < 11 && k != 6 && k != 7 ==> t[k] == b[k]
    ensures t[..4] == b[..4] && GetLe16(t, 4) == GetLe16(b, 4) && t[8] == b[8] && t[9] == b[9] && t[10] == b[10]
    ensures (forall k :: 60 <= k < |b| ==> t[k] == b[k]) ==> t[64..] == b[64..] && GetLe32(t, 60) == GetLe32(b, 60)
    ensures (forall k :: 60 <= k < 64 ==> t[k] == b[k]) ==> GetLe32(t, 60) == GetLe32(b, 60)
    ensures (forall k :: 64 <= k < |b| ==> t[k] == b[k]) ==> t[64..] == b[64..]
  {
  }

  // ---------- the matrices come back ----------

  function ValueRows(rows: seq<seq<Word>>, val: Word -> real): (r: seq<seq<real>>)
    ensures |r| == |rows|
  {
    seq(|rows|, i requires 0 <= i < |rows| => Values(rows[i], val))
  }

  // The network a model stands for.
  function Meaning(m: Model, val: Word -> real): Net {
    Net(ValueRows(m.w1, val), Values(m.b1, val), ValueRows(m.w2, val), Values(m.b2, val))
  }

  lemma {:induction false} RowsOfFlat(rows: seq<seq<Word>>, n: nat, val: Word -> real)
    requires forall i :: 0 <= i < |rows| ==> |rows[i]| == n
    ensures |FlatRows(rows)| == Area(|rows|, n) && Rows(Values(FlatRows(rows), val), |rows|, n) == ValueRows(rows, val)
    decreases |rows|
  {
    FlatRowsSize(rows, n);
    if rows != [] {
      var flat, rest := FlatRows(rows), rows[1..];
      FlatRowsSize(rest, n);
      RowsOfFlat(rest, n, val);
      assert Values(flat, val)[..n] == Values(rows[0], val);
      assert Values(flat, val)[n..] == Values(FlatRows(rest), val);
      assert ValueRows(rows, val) == [Values(rows[0], val)] + ValueRows(rest, val);
    }
  }

  lemma ValuesOfSum(a: seq<Word>, b: seq<Word>, val: Word -> real)
    ensures Values(a + b, val) == Values(a, val) + Values(b, val)
  {
  }

  lemma FourParts<T>(a: seq<T>, b: seq<T>, c: seq<T>, d: seq<T>)
    ensures var v, o1, o2, o3 := a + (b + (c + d)), |a|, |a| + |b|, |a| + |b| + |c|;
      v[..o1] == a && v[o1..o2] == b && v[o2..o3] == c && v[o3..] == d
  {
  }

  /** Reading a packed model's weights as matrices gives the matrices that were packed. */
  lemma PackedNetIsMeaning(m: Model, val: Word -> real)
    requires Packable(m)
    ensures |Flat(m)| == WeightCount(NIn(m), |m.b1|, |m.b2|)
    ensures NetOf(Values(Flat(m), val), NIn(m), |m.b1|, |m.b2|) == Meaning(m, val)
  {
    FlatSize(m);
    RowsOfFlat(m.w1, NIn(m), val);
    RowsOfFlat(m.w2, |m.b1|, val);
    hide Area, Rows, FlatRows, Values, ValueRows;
    var f1, f2 := FlatRows(m.w1), FlatRows(m.w2);
    ValuesOfSum(f1, m.b1 + (f2 + m.b2), val);
    ValuesOfSum(m.b1, f2 + m.b2, val);
    ValuesOfSum(f2, m.b2, val);
    FourParts(Values(f1, val), Values(m.b1, val), Values(f2, val), Values(m.b2, val));
  }
}
