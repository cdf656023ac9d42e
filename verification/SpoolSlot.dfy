/** The on-disk form of one spooled record: three 512-byte sectors holding a 16-byte
    header (magic, sequence number, length, reserved, CRC-32), the payload, and zeros. */
module SpoolSlot {
  import opened Bytes
  import opened CrcDetection
  import opened SpoolRing

  const SECTOR_BYTES := 512
  const SLOT_BYTES := 3 * SECTOR_BYTES
  const HDR_BYTES := 16
  const REC_MAGIC: u32 := 0x5254_4F49

  type Sector = s: seq<byte> | |s| == SECTOR_BYTES witness Fill(0, SECTOR_BYTES)

  datatype Slot = Slot(s0: Sector, s1: Sector, s2: Sector)

  datatype RecHdr = RecHdr(magic: u32, seqno: u32, len: u16, rsvd: u16, crc: u32)

  function EncodeHdr(h: RecHdr): (s: seq<byte>)
    ensures |s| == HDR_BYTES
  {
    Le32(h.magic) + Le32(h.seqno) + Le16(h.len) + Le16(h.rsvd) + Le32(h.crc)
  }

  function DecodeHdr(s: seq<byte>): RecHdr
    requires HDR_BYTES <= |s|
  {
    RecHdr(GetLe32(s, 0), GetLe32(s, 4), GetLe16(s, 8), GetLe16(s, 10), GetLe32(s, 12))
  }

  lemma HdrReadsBack(h: RecHdr, s: seq<byte>)
    requires HDR_BYTES <= |s| && s[..HDR_BYTES] == EncodeHdr(h)
    ensures DecodeHdr(s) == h
  {
    var e := EncodeHdr(h);
    assert s[0..4] == e[0..4] == Le32(h.magic);
    assert s[4..8] == e[4..8] == Le32(h.seqno);
    assert s[8..10] == e[8..10] == Le16(h.len);
    assert s[10..12] == e[10..12] == Le16(h.rsvd);
    assert s[12..16] == e[12..16] == Le32(h.crc);
    Le32At(h.magic, s, 0);
    Le32At(h.seqno, s, 4);
    Le16At(h.len, s, 8);
    Le16At(h.rsvd, s, 10);
    Le32At(h.crc, s, 12);
  }

  // ---------- what a reader makes of a slot ----------

  function Hdr(s: Slot): RecHdr {
    DecodeHdr(s.s0)
  }

  // The boot scan's test: it looks at the header only.
  predicate Holds(s: Slot) {
    Hdr(s).magic == REC_MAGIC && Hdr(s).len <= PAYLOAD_MAX
  }

  function SeqOf(s: Slot): u32 {
    Hdr(s).seqno
  }

  function Payload(s: Slot): (p: seq<byte>)
    requires Holds(s)
    ensures |p| == Hdr(s).len
  {
    (s.s0 + s.s1 + s.s2)[HDR_BYTES..HDR_BYTES + Hdr(s).len as int]
  }

  predicate Intact(s: Slot) {
    Holds(s) && Crc32(Payload(s)) == Hdr(s).crc
  }

  // The reader's test for record `q` with a buffer of `bufSize` bytes.
  predicate Readable(s: Slot, q: nat, bufSize: nat) {
    Intact(s) && SeqOf(s) == q && Hdr(s).len < bufSize
  }

  // ---------- what writers put into a slot ----------

  function Image(q: u32, json: seq<byte>): (b: seq<byte>)
    requires |json| <= PAYLOAD_MAX
    ensures |b| == SLOT_BYTES
  {
    EncodeHdr(RecHdr(REC_MAGIC, q, |json|, 0, Crc32(json))) + json + Fill(0, SLOT_BYTES - HDR_BYTES - |json|)
  }

  function Record(q: u32, json: seq<byte>): Slot
    requires |json| <= PAYLOAD_MAX
  {
    var b := Image(q, json);
    Slot(b[..SECTOR_BYTES], b[SECTOR_BYTES..2 * SECTOR_BYTES], b[2 * SECTOR_BYTES..])
  }

  function Blanked(s: Slot): Slot {
    s.(s0 := Fill(0, SECTOR_BYTES))
  }

  function Torn(before: Slot, after: Slot, l: Landed): Slot {
    Slot(if l.l0 then after.s0 else before.s0,
         if l.l1 then after.s1 else before.s1,
         if l.l2 then after.s2 else before.s2)
  }

  /** A CRC without collisions among torn writes: a mixture of the old and the new
      sectors passes only if it spells out the old record or the new one in full. */
  ghost predicate TearDetected(before: Slot, after: Slot, l: Landed) {
    var t := Torn(before, after, l);
    Intact(t) ==>
      || (Intact(before) && Hdr(t) == Hdr(before) && Payload(t) == Payload(before))
      || (Intact(after) && Hdr(t) == Hdr(after) && Payload(t) == Payload(after))
  }

  // ---------- facts ----------

  lemma RecordReadsBack(q: u32, json: seq<byte>)
    requires |json| <= PAYLOAD_MAX
    ensures var s := Record(q, json);
            Intact(s) && SeqOf(s) == q && Payload(s) == json && Hdr(s).len == |json|
  {
    var s, b := Record(q, json), Image(q, json);
    assert b[..HDR_BYTES] == s.s0[..HDR_BYTES] == EncodeHdr(RecHdr(REC_MAGIC, q, |json|, 0, Crc32(json)));
    HdrReadsBack(RecHdr(REC_MAGIC, q, |json|, 0, Crc32(json)), s.s0);
    assert s.s0 + s.s1 + s.s2 == b;
    assert b[HDR_BYTES..HDR_BYTES + |json|] == json;
  }

  lemma BlankedHoldsNothing(s: Slot)
    ensures !Holds(Blanked(s))
  {
    assert GetLe32(Blanked(s).s0, 0) == 0;
  }

  lemma TornHeader(before: Slot, after: Slot, l: Landed)
    ensures Hdr(Torn(before, after, l)) == Hdr(if l.l0 then after else before)
  {
  }

  lemma PayloadInFirstSector(s: Slot)
    requires Holds(s) && HDR_BYTES + Hdr(s).len as int <= SECTOR_BYTES
    ensures Payload(s) == s.s0[HDR_BYTES..HDR_BYTES + Hdr(s).len as int]
  {
  }

  /** Records that fit in the first sector tear atomically, whatever the CRC does:
      the header sector alone decides between the old record and the new one. */
  lemma ShortRecordsTearAtomically(before: Slot, after: Slot, l: Landed)
    requires Holds(before) ==> HDR_BYTES + Hdr(before).len as int <= SECTOR_BYTES
    requires Holds(after) ==> HDR_BYTES + Hdr(after).len as int <= SECTOR_BYTES
    ensures TearDetected(before, after, l)
  {
    var t, src := Torn(before, after, l), if l.l0 then after else before;
    TornHeader(before, after, l);
    if Intact(t) {
      PayloadInFirstSector(t);
      PayloadInFirstSector(src);
    }
  }

  // The slot with one byte of the medium altered.
  function Altered(s: Slot, i: nat, x: byte): Slot
    requires i < SLOT_BYTES
  {
    if i < 512 then s.(s0 := s.s0[i := x])
    else if i < 1024 then s.(s1 := s.s1[i - 512 := x])
    else s.(s2 := s.s2[i - 1024 := x])
  }

  /** Where each field of a stored record lies, and that the longest one fills the slot but for the
      byte a reader needs for its terminator. */
  lemma RecordLayout(q: u32, json: seq<byte>)
    requires |json| <= PAYLOAD_MAX
    ensures var s := Record(q, json); var m := s.s0 + s.s1 + s.s2;
      && |m| == 1536 && m[0..4] == Ascii("IOTR") && m[4..8] == Le32(q) && m[8..10] == Le16(|json|)
      && m[10..12] == [0, 0] && m[12..16] == Le32(Crc32(json)) && m[16..16 + |json|] == json
      && forall k :: 16 + |json| <= k < 1536 ==> m[k] == 0
    ensures 16 + PAYLOAD_MAX + 1 == 1536
  {
    hide Crc32, Le32, Le16;
    var s, b := Record(q, json), Image(q, json);
    MagicText();
    assert s.s0 + s.s1 + s.s2 == b;
  }

  lemma MagicText()
    ensures Le32(REC_MAGIC) == Ascii("IOTR") && Le16(0) == [0, 0]
  {
  }

  /** A stored record with one byte of its payload altered on the medium is never delivered. */
  lemma AlteredPayloadIsBad(q: u32, json: seq<byte>, i: nat, x: byte)
    requires |json| <= PAYLOAD_MAX && i < |json| && x != json[i]
    ensures CellOf(Altered(Record(q, json), 16 + i, x)) == Cell(q, Bad)
  {
    var s, t := Record(q, json), Altered(Record(q, json), 16 + i, x);
    RecordReadsBack(q, json);
    AlteredReads(s, i, x);
    AlteredByteShows(json, i, x);
    hide Crc32, Record, Altered, Hdr, Payload;
  }

  lemma AlteredReads(s: Slot, i: nat, x: byte)
    requires Holds(s) && i < Hdr(s).len as int
    ensures var t := Altered(s, 16 + i, x); Hdr(t) == Hdr(s) && Payload(t) == Payload(s)[i := x]
  {
    var t := Altered(s, 16 + i, x);
    HeaderApart(s, t);
    hide Hdr;
    assert t.s0 + t.s1 + t.s2 == (s.s0 + s.s1 + s.s2)[16 + i := x];
  }

  // The header is what the first sixteen bytes say.
  lemma HeaderApart(s: Slot, t: Slot)
    requires forall k :: 0 <= k < HDR_BYTES ==> s.s0[k] == t.s0[k]
    ensures Hdr(s) == Hdr(t)
  {
  }

  // ---------- slots as cells ----------

  function CellOf(s: Slot): Cell {
    if !Holds(s) then Blank else Cell(SeqOf(s), if Intact(s) then Good(Payload(s)) else Bad)
  }

  lemma RecordCell(q: u32, json: Rec)
    requires |json| <= PAYLOAD_MAX
    ensures CellOf(Record(q, json)) == Cell(q, Good(json))
  {
    RecordReadsBack(q, json);
  }

  lemma BlankedCell(s: Slot)
    ensures CellOf(Blanked(s)) == Blank
  {
    BlankedHoldsNothing(s);
  }

  // The reader's test on bytes is the test on the cell.
  lemma ReadableCell(s: Slot, q: nat, bufSize: nat)
    ensures Readable(s, q, bufSize) <==>
      var c := CellOf(s); c.Cell? && c.seqno == q && c.body.Good? && |c.body.rec| < bufSize
    ensures Readable(s, q, bufSize) ==> CellOf(s).body.rec == Payload(s)
  {
  }

  // One step of the boot scan on bytes is one step of the scan on the cell.
  lemma ScanCell(s: Slot, c: Scan)
    ensures ScanOne(c, CellOf(s)) ==
      if Holds(s) then Scan(c.valid + 1, if SeqOf(s) > c.maxSeq then SeqOf(s) else c.maxSeq,
                            if SeqOf(s) < c.minSeq then SeqOf(s) else c.minSeq)
      else c
  {
  }

  // The header sector alone decides which header a torn slot shows.
  lemma TornHeaderCell(before: Slot, q: u32, json: Rec, l: Landed)
    requires |json| <= PAYLOAD_MAX
    ensures OldOrNewHeader(CellOf(before), q, CellOf(Torn(before, Record(q, json), l)))
  {
    RecordReadsBack(q, json);
    TornHeader(before, Record(q, json), l);
  }

  /** With a checksum that detects tears, a torn slot shows the old cell, the new one, or a
      header whose body is bad; and a write that landed in full, or not at all, is not torn. */
  lemma TornCell(before: Slot, q: u32, json: Rec, l: Landed)
    requires |json| <= PAYLOAD_MAX && TearDetected(before, Record(q, json), l)
    requires Holds(before) ==> SeqOf(before) != q
    ensures TornOutcome(CellOf(before), q, json, l, CellOf(Torn(before, Record(q, json), l)))
  {
    RecordReadsBack(q, json);
    TornHeader(before, Record(q, json), l);
    assert l == ALL ==> Torn(before, Record(q, json), l) == Record(q, json);
    assert l == NONE ==> Torn(before, Record(q, json), l) == before;
  }
}
