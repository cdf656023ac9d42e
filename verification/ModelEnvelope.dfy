/** The IOTV envelope of a vision model: a 32-byte header (magic, format and model version,
    payload length, CRC-32, display name) and the payload. */
module ModelEnvelope {
  import opened Bytes
  import opened CrcDetection

  const IOTV_MAGIC: seq<byte> := [0x49, 0x4F, 0x54, 0x56]
  const TFL3: seq<byte> := [0x54, 0x46, 0x4C, 0x33]
  const IOTV_FMT_VER: u16 := 1
  const IOTV_HDR_LEN := 32
  const NAME_LEN := 16
  const MODEL_MAX_BLOB := 512 * 1024
  const PAYLOAD_MAX := MODEL_MAX_BLOB - IOTV_HDR_LEN

  datatype Verdict = Valid | TooShort | BadMagic | BadVersion | LengthOutOfRange | LengthMismatch | CrcMismatch

  function ModelVer(b: seq<byte>): u16
    requires |b| >= IOTV_HDR_LEN
  {
    GetLe16(b, 6)
  }

  function ModelLen(b: seq<byte>): u32
    requires |b| >= IOTV_HDR_LEN
  {
    GetLe32(b, 8)
  }

  // The header fields that both the validator and the loader insist on.
  predicate HeaderOk(b: seq<byte>)
    requires |b| >= IOTV_HDR_LEN
  {
    b[..4] == IOTV_MAGIC && GetLe16(b, 4) == IOTV_FMT_VER && 0 < ModelLen(b) <= PAYLOAD_MAX
  }

  function Validate(b: seq<byte>): Verdict {
    if |b| < IOTV_HDR_LEN then TooShort
    else if b[..4] != IOTV_MAGIC then BadMagic
    else if GetLe16(b, 4) != IOTV_FMT_VER then BadVersion
    else if ModelLen(b) == 0 || ModelLen(b) > PAYLOAD_MAX then LengthOutOfRange
    else if |b| != IOTV_HDR_LEN + ModelLen(b) then LengthMismatch
    else if Crc32(b[IOTV_HDR_LEN..]) != GetLe32(b, 12) then CrcMismatch
    else Valid
  }

  /** Over any bytes: the firmware accepts exactly the blobs with this text and version, their own
      payload's length, and its checksum. */
  lemma ValidIff(b: seq<byte>)
    ensures Validate(b) == Valid <==>
      && 32 < |b| <= 524288 && b[..4] == Ascii("IOTV") && b[4..6] == [1, 0]
      && b[8..12] == Le32(|b| - 32) && b[12..16] == Le32(Crc32(b[32..]))
  {
    hide Crc32, GetLe16, GetLe32, Le32;
    assert Ascii("IOTV") == IOTV_MAGIC;
    assert Le16(1) == [1, 0];
    if |b| >= 32 {
      Le16Iff(1, b, 4);
      Le32Iff(Crc32(b[32..]), b, 12);
      if |b| <= 524288 {
        Le32Iff(|b| - 32, b, 8);
      }
    }
  }

  /** Which damage to a single byte the firmware detects: all but that to the model's version and
      its display name. */
  lemma AlteredByteIff(b: seq<byte>, i: nat, x: byte)
    requires Validate(b) == Valid && i < |b| && x != b[i]
    ensures Validate(b[i := x]) == Valid <==> 6 <= i < 8 || 16 <= i < 32
    ensures i >= 32 ==> Validate(b[i := x]) == CrcMismatch
  {
    if i < 32 {
      AlteredHeaderByte(b, i, x);
    } else {
      AlteredPayloadByte(b, i, x);
    }
  }

  lemma AlteredPayloadByte(b: seq<byte>, i: nat, x: byte)
    requires Validate(b) == Valid && 32 <= i < |b| && x != b[i]
    ensures Validate(b[i := x]) == CrcMismatch
  {
    var t := b[i := x];
    UnalteredFields(b, t, i);
    assert t[32..] == b[32..][i - 32 := x];
    AlteredByteShows(b[32..], i - 32, x);
    hide *;
    OtherPayload(b, t);
  }

  // A blob of the same header with another checksum over its payload.
  lemma OtherPayload(b: seq<byte>, t: seq<byte>)
    requires Validate(b) == Valid && |t| == |b| >= 32 && t[..4] == b[..4] && GetLe16(t, 4) == GetLe16(b, 4)
    requires ModelLen(t) == ModelLen(b) && GetLe32(t, 12) == GetLe32(b, 12) && Crc32(t[32..]) != Crc32(b[32..])
    ensures Validate(t) == CrcMismatch
  {
    hide Crc32, GetLe16, GetLe32, ModelLen, IOTV_MAGIC;
  }

  lemma AlteredHeaderByte(b: seq<byte>, i: nat, x: byte)
    requires Validate(b) == Valid && i < 32 && x != b[i]
    ensures Validate(b[i := x]) == Valid <==> 6 <= i < 8 || 16 <= i
  {
    var t := b[i := x];
    UnalteredFields(b, t, i);
    hide Crc32, GetLe16, GetLe32, ModelLen, IOTV_MAGIC;
    if 4 <= i < 6 {
      AlteredVersion(b, i, x);
    } else if 8 <= i < 12 {
      AlteredLen(b, i, x);
    } else if 12 <= i < 16 {
      AlteredWord(b, 12, i, x);
    }
  }

  lemma AlteredVersion(b: seq<byte>, i: nat, x: byte)
    requires |b| >= 32 && 4 <= i < 6 && x != b[i]
    ensures GetLe16(b[i := x], 4) != GetLe16(b, 4)
  {
  }

  lemma AlteredLen(b: seq<byte>, i: nat, x: byte)
    requires |b| >= 32 && 8 <= i < 12 && x != b[i]
    ensures ModelLen(b[i := x]) != ModelLen(b)
  {
    hide GetLe32;
    AlteredWord(b, 8, i, x);
  }

  // The fields that the byte altered does not lie in.
  lemma UnalteredFields(b: seq<byte>, t: seq<byte>, i: nat)
    requires |b| == |t| >= 32 && i < |b| && forall k :: 0 <= k < |b| ==> (t[k] == b[k] <==> k != i)
    ensures t[..4] == b[..4] <==> i >= 4
    ensures !(4 <= i < 6) ==> GetLe16(t, 4) == GetLe16(b, 4)
    ensures !(8 <= i < 12) ==> ModelLen(t) == ModelLen(b)
    ensures !(12 <= i < 16) ==> GetLe32(t, 12) == GetLe32(b, 12)
    ensures i < 32 ==> t[32..] == b[32..]
  {
    assert i < 4 ==> t[..4][i] != b[..4][i];
  }

  // A display name: at most 15 bytes, zero-padded to 16.
  function NameField(name: seq<byte>): (s: seq<byte>)
    ensures |s| == NAME_LEN
  {
    var n := if |name| < NAME_LEN then name else name[..NAME_LEN - 1];
    n + Fill(0, NAME_LEN - |n|)
  }

  function Header(payload: seq<byte>, ver: u16, name: seq<byte>): (s: seq<byte>)
    requires |payload| <= U32_MAX
    ensures |s| == IOTV_HDR_LEN
  {
    IOTV_MAGIC + Le16(IOTV_FMT_VER) + Le16(ver) + Le32(|payload|) + Le32(Crc32(payload)) + NameField(name)
  }

  function Blob(payload: seq<byte>, ver: u16, name: seq<byte>): (s: seq<byte>)
    requires |payload| <= U32_MAX
    ensures |s| == IOTV_HDR_LEN + |payload|
  {
    Header(payload, ver, name) + payload
  }

  /** The blob, field by field; the name is cut to 15 bytes and padded with zeros. */
  lemma BlobLayout(payload: seq<byte>, ver: u16, name: seq<byte>)
    requires |payload| <= U32_MAX
    ensures Blob(payload, ver, name) == Ascii("IOTV") + [1, 0] + Le16(ver) + Le32(|payload|) + Le32(Crc32(payload))
                                        + NameField(name) + payload
    ensures var n := if |name| <= 15 then |name| else 15;
      NameField(name)[..n] == name[..n] && forall k :: n <= k < 16 ==> NameField(name)[k] == 0
  {
    hide Crc32, Le16, Le32;
    assert Ascii("IOTV") == IOTV_MAGIC;
    VersionOne();
  }

  lemma VersionOne()
    ensures Le16(IOTV_FMT_VER) == [1, 0]
  {
  }

  datatype Built = Refused | Ok(blob: seq<byte>)

  // The packing tool: it refuses oversize models and files that are not flatbuffers.
  function BuildIotv(payload: seq<byte>, ver: u16, name: seq<byte>): Built {
    if |payload| > PAYLOAD_MAX || |payload| < 8 || payload[4..8] != TFL3 then Refused
    else Ok(Blob(payload, ver, name))
  }

  lemma BlobFields(payload: seq<byte>, ver: u16, name: seq<byte>)
    requires |payload| <= U32_MAX
    ensures var b := Blob(payload, ver, name);
      && b[..4] == IOTV_MAGIC && GetLe16(b, 4) == IOTV_FMT_VER && ModelVer(b) == ver && ModelLen(b) == |payload|
      && GetLe32(b, 12) == Crc32(payload) && b[16..32] == NameField(name) && b[IOTV_HDR_LEN..] == payload
  {
    hide Crc32, GetLe16, GetLe32, Le16, Le32, NameField;
    var b := Blob(payload, ver, name);
    assert b[4..6] == Le16(IOTV_FMT_VER) && b[6..8] == Le16(ver);
    assert b[8..12] == Le32(|payload|) && b[12..16] == Le32(Crc32(payload));
    Le16At(IOTV_FMT_VER, b, 4);
    Le16At(ver, b, 6);
    Le32At(|payload|, b, 8);
    Le32At(Crc32(payload), b, 12);
  }

  /** Wrapping a payload gives a blob that the validator accepts exactly when the payload is
      not empty and fits; its fields and payload read back. */
  lemma WrapValidates(payload: seq<byte>, ver: u16, name: seq<byte>)
    requires |payload| <= U32_MAX
    ensures Validate(Blob(payload, ver, name)) == Valid <==> 0 < |payload| <= PAYLOAD_MAX
  {
    BlobFields(payload, ver, name);
    hide Crc32, GetLe16, GetLe32, Blob;
  }

  /** What the packing tool refuses: models over the cap, and files that are not flatbuffers. */
  lemma BuildsIff(payload: seq<byte>, ver: u16, name: seq<byte>)
    ensures BuildIotv(payload, ver, name).Ok? <==> 8 <= |payload| <= 524256 && payload[4..8] == Ascii("TFL3")
  {
    assert Ascii("TFL3") == TFL3;
  }

  /** Whatever the packing tool builds, the firmware accepts. */
  lemma BuiltValidates(payload: seq<byte>, ver: u16, name: seq<byte>)
    ensures var r := BuildIotv(payload, ver, name);
      r.Ok? ==>
        && Validate(r.blob) == Valid && |r.blob| <= MODEL_MAX_BLOB
        && r.blob[IOTV_HDR_LEN..] == payload && ModelVer(r.blob) == ver
  {
    if BuildIotv(payload, ver, name).Ok? {
      WrapValidates(payload, ver, name);
      BlobFields(payload, ver, name);
    }
  }
}
