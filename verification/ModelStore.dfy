/** Persistence of one IOTV blob at the start of a flash partition: erase, then program.

    An erase works sector by sector and an interrupted one has erased any subset of its
    sectors; programming goes upward, so that an interrupted one has written a prefix. */
module ModelStore {
  import opened Arith
  import opened Bytes
  import opened ModelEnvelope

  const FLASH_SECTOR := 4096
  const EFBIG := 27
  const ENOENT := 2
  const EINVAL := 22
  const ENOMEM := 12

  function RoundUp(n: nat): (r: nat)
    ensures n <= r < n + 4096 && r % 4096 == 0
  {
    (n + FLASH_SECTOR - 1) / FLASH_SECTOR * FLASH_SECTOR
  }

  // ---------- flash images ----------

  // The first `upTo` bytes erased, as far as their sector is in `sectors`.
  function Erased(f: seq<byte>, upTo: nat, sectors: set<nat>): (g: seq<byte>)
    ensures |g| == |f|
  {
    seq(|f|, i requires 0 <= i < |f| => if i < upTo && i / FLASH_SECTOR in sectors then 0xFF else f[i])
  }

  function ErasedAll(f: seq<byte>, upTo: nat): (g: seq<byte>)
    ensures |g| == |f|
  {
    seq(|f|, i requires 0 <= i < |f| => if i < upTo then 0xFF else f[i])
  }

  // The first k bytes of the blob programmed.
  function Programmed(f: seq<byte>, blob: seq<byte>, k: nat): (g: seq<byte>)
    requires k <= |blob| <= |f|
    ensures |g| == |f|
  {
    blob[..k] + f[k..]
  }

  // ---------- loading ----------

  datatype Load = Loaded(blob: seq<byte>) | NoModel | BufferTooSmall | ReadError

  function LoadFrom(f: seq<byte>, bufSize: nat): Load {
    if |f| < IOTV_HDR_LEN then ReadError
    else if !HeaderOk(f) then NoModel
    else
      var total := IOTV_HDR_LEN + ModelLen(f);
      if total > bufSize then BufferTooSmall
      else if total > |f| then ReadError
      else if Validate(f[..total]) != Valid then NoModel
      else Loaded(f[..total])
  }

  // The stored model as every boot sees it.
  function Stored(f: seq<byte>): Load {
    LoadFrom(f, MODEL_MAX_BLOB)
  }

  // An erase, or a write, that failed has done part of its work.
  datatype EraseResult = EraseDone | EraseFailed(err: int, sectors: set<nat>)
  datatype WriteResult = WriteDone | WriteFailed(err: int, written: nat)

  // What a save leaves in the partition.
  function SaveImage(f: seq<byte>, blob: seq<byte>, e: EraseResult, w: WriteResult): (g: seq<byte>)
    ensures |g| == |f|
  {
    var upTo := RoundUp(|blob|);
    if upTo > |f| then f
    else if e.EraseFailed? then Erased(f, upTo, e.sectors)
    else Programmed(ErasedAll(f, upTo), blob, if w.WriteDone? then |blob| else Min(w.written, |blob|))
  }

  // What erasing the header's sector leaves.
  function InvalidImage(f: seq<byte>, e: EraseResult): (g: seq<byte>)
    ensures |g| == |f|
  {
    if e.EraseDone? then ErasedAll(f, FLASH_SECTOR) else Erased(f, FLASH_SECTOR, e.sectors)
  }

  class Store {
    const flash: array<byte>

    constructor (partition: array<byte>)
      ensures flash == partition
    {
      flash := partition;
    }

    method Erase(upTo: nat, e: EraseResult) returns (ret: int)
      requires upTo <= flash.Length
      modifies flash
      ensures ret == if e.EraseDone? then 0 else e.err
      ensures flash[..] == if e.EraseDone? then ErasedAll(old(flash[..]), upTo)
                           else Erased(old(flash[..]), upTo, e.sectors)
    {
      forall i | 0 <= i < upTo && (e.EraseDone? || i / FLASH_SECTOR in e.sectors) {
        flash[i] := 0xFF;
      }
      ret := if e.EraseDone? then 0 else e.err;
    }

    // Erases what the blob needs, then writes it.
    method Save(blob: seq<byte>, e: EraseResult, w: WriteResult) returns (ret: int)
      requires (e.EraseFailed? ==> e.err != 0) && (w.WriteFailed? ==> w.err != 0)
      modifies flash
      ensures flash[..] == SaveImage(old(flash[..]), blob, e, w)
      ensures ret == if RoundUp(|blob|) > flash.Length then -EFBIG
                     else if e.EraseFailed? then e.err
                     else if w.WriteFailed? then w.err else 0
    {
      var eraseLen := RoundUp(|blob|);
      if eraseLen > flash.Length {
        return -EFBIG;
      }
      ret := Erase(eraseLen, e);
      if ret == 0 {
        ghost var f := flash[..];
        var k := if w.WriteDone? then |blob| else Min(w.written, |blob|);
        forall i | 0 <= i < k {
          flash[i] := blob[i];
        }
        assert flash[..] == Programmed(f, blob, k);
        ret := if w.WriteDone? then 0 else w.err;
      }
    }

    // Erase the sector with the header.
    method Invalidate(e: EraseResult) returns (ret: int)
      requires FLASH_SECTOR <= flash.Length
      modifies flash
      ensures ret == if e.EraseDone? then 0 else e.err
      ensures flash[..] == InvalidImage(old(flash[..]), e)
    {
      ret := Erase(FLASH_SECTOR, e);
    }

    method LoadInto(buf: array<byte>, bufSize: nat) returns (ret: int, outLen: nat)
      requires bufSize <= buf.Length && buf != flash
      modifies buf
      ensures ret == (match LoadFrom(flash[..], bufSize)
        case Loaded(_) => 0
        case NoModel => -ENOENT
        case BufferTooSmall => -ENOMEM
        case ReadError => -EINVAL)
      ensures ret == 0 ==> outLen <= bufSize && LoadFrom(flash[..], bufSize) == Loaded(buf[..outLen])
    {
      hide GetLe16, GetLe32, Validate;
      outLen := 0;
      if flash.Length < IOTV_HDR_LEN {
        return -EINVAL, 0;
      }
      var hdr := flash[..];
      if hdr[..4] != IOTV_MAGIC {
        return -ENOENT, 0;
      }
      if GetLe16(hdr, 4) != IOTV_FMT_VER || ModelLen(hdr) == 0 || ModelLen(hdr) > PAYLOAD_MAX {
        return -ENOENT, 0;
      }
      var total := IOTV_HDR_LEN + ModelLen(hdr);
      if total > bufSize {
        return -ENOMEM, 0;
      }
      if total > flash.Length {
        return -EINVAL, 0;
      }
      forall i | 0 <= i < total {
        buf[i] := flash[i];
      }
      assert flash[..] == hdr;
      assert buf[..total] == hdr[..total];
      if Validate(buf[..total]) != Valid {
        return -ENOENT, 0;
      }
      return 0, total;
    }
  }

  // ---------- the loader's view ----------

  // A valid blob at the start of the partition is what gets loaded.
  lemma BlobAtStart(f: seq<byte>, blob: seq<byte>)
    requires Validate(blob) == Valid && |blob| <= |f| && f[..|blob|] == blob
    ensures Stored(f) == Loaded(blob)
  {
    hide Crc32;
    SameHeader(f, blob);
  }

  lemma SameHeader(f: seq<byte>, g: seq<byte>)
    requires |f| >= IOTV_HDR_LEN && |g| >= IOTV_HDR_LEN && f[..IOTV_HDR_LEN] == g[..IOTV_HDR_LEN]
    ensures HeaderOk(f) == HeaderOk(g) && ModelLen(f) == ModelLen(g) && GetLe32(f, 12) == GetLe32(g, 12)
    ensures GetLe16(f, 4) == GetLe16(g, 4) && f[..4] == g[..4]
  {
    assert forall i :: 0 <= i < IOTV_HDR_LEN ==> f[i] == f[..IOTV_HDR_LEN][i] == g[i];
    assert f[..4] == f[..IOTV_HDR_LEN][..4];
    assert g[..4] == g[..IOTV_HDR_LEN][..4];
  }

  /** A completed save is what the next boot loads. */
  lemma SaveThenLoad(f: seq<byte>, blob: seq<byte>)
    requires Validate(blob) == Valid && RoundUp(|blob|) <= |f|
    ensures Stored(Programmed(ErasedAll(f, RoundUp(|blob|)), blob, |blob|)) == Loaded(blob)
  {
    BlobAtStart(Programmed(ErasedAll(f, RoundUp(|blob|)), blob, |blob|), blob);
  }

  // ---------- power loss ----------

  // The payload that the header at the start of an image announces.
  function Announced(f: seq<byte>): seq<byte>
    requires |f| >= IOTV_HDR_LEN && HeaderOk(f) && IOTV_HDR_LEN + ModelLen(f) as int <= |f|
  {
    f[IOTV_HDR_LEN..IOTV_HDR_LEN + ModelLen(f) as int]
  }

  predicate Announces(f: seq<byte>) {
    |f| >= IOTV_HDR_LEN && HeaderOk(f) && IOTV_HDR_LEN + ModelLen(f) as int <= |f|
  }

  // The checksum in a torn image accepts no payload but the one given.
  ghost predicate CrcDetects(f: seq<byte>, payload: seq<byte>) {
    Announces(f) && Announced(f) != payload ==> Crc32(Announced(f)) != GetLe32(f, 12)
  }

  lemma StoredIs(f: seq<byte>)
    ensures Stored(f).Loaded? <==> Announces(f) && Crc32(Announced(f)) == GetLe32(f, 12)
    ensures Stored(f).Loaded? ==>
      Stored(f).blob == f[..IOTV_HDR_LEN] + Announced(f) && Validate(Stored(f).blob) == Valid
  {
    hide Crc32;
    if Announces(f) {
      var b := f[..IOTV_HDR_LEN + ModelLen(f) as int];
      SameHeader(f, b);
      assert b[IOTV_HDR_LEN..] == Announced(f);
      assert b == f[..IOTV_HDR_LEN] + Announced(f);
    }
  }

  // With the first sector erased there is no model.
  lemma NoHeaderNoModel(f: seq<byte>)
    requires |f| >= IOTV_HDR_LEN && f[0] == 0xFF
    ensures !Stored(f).Loaded?
  {
    StoredIs(f);
    assert f[..4][0] == 0xFF;
  }

  /** Power loss during an erase, whatever subset of the sectors is erased: the next boot loads
      the whole old blob, or none. */
  lemma CrashDuringErase(f: seq<byte>, upTo: nat, sectors: set<nat>)
    requires FLASH_SECTOR <= upTo <= |f|
    requires Announces(f) ==> CrcDetects(Erased(f, upTo, sectors), Announced(f))
    ensures var g := Erased(f, upTo, sectors); Stored(g).Loaded? ==> Stored(g) == Stored(f)
  {
    var g := Erased(f, upTo, sectors);
    if 0 in sectors {
      NoHeaderNoModel(g);
    } else {
      assert g[..IOTV_HDR_LEN] == f[..IOTV_HDR_LEN];
      SameHeader(f, g);
      StoredIs(f);
      StoredIs(g);
    }
  }

  // A completed erase of the header's sector leaves no model.
  lemma EraseForgets(f: seq<byte>, upTo: nat)
    requires FLASH_SECTOR <= upTo <= |f|
    ensures !Stored(ErasedAll(f, upTo)).Loaded?
  {
    NoHeaderNoModel(ErasedAll(f, upTo));
  }

  predicate AllErased(payload: seq<byte>) {
    forall i :: 0 <= i < |payload| ==> payload[i] == 0xFF
  }

  // A write cut off after k bytes has the whole checksum but not the whole name, and the payload
  // looks written because it is all 0xFF.
  predicate TornHead(blob: seq<byte>, k: nat)
    requires |blob| >= IOTV_HDR_LEN
  {
    && AllErased(blob[IOTV_HDR_LEN..])
    && (forall j :: k <= j < 16 ==> blob[j] == 0xFF)
    && (exists j :: k <= j < IOTV_HDR_LEN && blob[j] != 0xFF)
  }

  // What a cut after k bytes leaves of the blob's place.
  lemma CutBytes(f: seq<byte>, blob: seq<byte>, k: nat)
    requires RoundUp(|blob|) <= |f| && k <= |blob|
    ensures var g := Programmed(ErasedAll(f, RoundUp(|blob|)), blob, k);
      && (forall i :: 0 <= i < k ==> g[i] == blob[i]) && (forall i :: k <= i < |blob| ==> g[i] == 0xFF)
      && (g[..|blob|] == blob <==> AllErased(blob[k..]))
  {
    var g := Programmed(ErasedAll(f, RoundUp(|blob|)), blob, k);
    if AllErased(blob[k..]) {
      assert forall i :: k <= i < |blob| ==> blob[i] == blob[k..][i - k] == 0xFF;
    }
    if g[..|blob|] == blob {
      assert forall i :: 0 <= i < |blob| - k ==> blob[k..][i] == g[..|blob|][k + i];
    }
  }

  // The length field of a valid blob ends with a zero byte, an erased one does not.
  lemma CutInLength(g: seq<byte>, blob: seq<byte>, k: nat)
    requires Validate(blob) == Valid && k < 12 && |g| >= |blob| && g[11] == 0xFF
    ensures !Announces(g) && blob[11] == 0
  {
    hide Crc32;
  }

  lemma SameWord(a: seq<byte>, b: seq<byte>)
    requires |a| >= 16 && |b| >= 16
    ensures GetLe32(a, 12) == GetLe32(b, 12) <==> forall j :: 12 <= j < 16 ==> a[j] == b[j]
  {
    hide Word;
    SameDigits(a[12], a[13], a[14], a[15], b[12], b[13], b[14], b[15]);
  }

  // A header whose length field is complete, over a payload that is still erased.
  lemma CutInHead(g: seq<byte>, blob: seq<byte>, k: nat)
    requires Validate(blob) == Valid && 12 <= k < IOTV_HDR_LEN && |g| >= |blob|
    requires (forall i :: 0 <= i < k ==> g[i] == blob[i]) && (forall i :: k <= i < |blob| ==> g[i] == 0xFF)
    requires CrcDetects(g, blob[IOTV_HDR_LEN..])
    ensures Stored(g).Loaded? <==>
            AllErased(blob[IOTV_HDR_LEN..]) && forall j :: k <= j < 16 ==> blob[j] == 0xFF
    ensures Stored(g).Loaded? ==> Stored(g).blob == g[..|blob|]
  {
    hide Crc32;
    assert g[..4] == blob[..4] && ModelLen(g) == ModelLen(blob) && GetLe16(g, 4) == GetLe16(blob, 4);
    StoredIs(g);
    var payload := blob[IOTV_HDR_LEN..];
    assert forall i :: 0 <= i < |Announced(g)| ==> Announced(g)[i] == g[IOTV_HDR_LEN + i];
    assert AllErased(Announced(g)) && (AllErased(payload) <==> Announced(g) == payload);
    SameWord(g, blob);
    assert g[..|blob|] == g[..IOTV_HDR_LEN] + Announced(g);
  }

  // A cut behind the header.
  lemma CutInPayload(g: seq<byte>, blob: seq<byte>)
    requires Validate(blob) == Valid && |g| >= |blob| && g[..IOTV_HDR_LEN] == blob[..IOTV_HDR_LEN]
    requires CrcDetects(g, blob[IOTV_HDR_LEN..])
    ensures Stored(g).Loaded? <==> g[..|blob|] == blob
    ensures Stored(g).Loaded? ==> Stored(g) == Loaded(blob)
  {
    hide Crc32;
    SameHeader(g, blob);
    StoredIs(g);
    assert g[..|blob|] == g[..IOTV_HDR_LEN] + Announced(g);
    assert blob == blob[..IOTV_HDR_LEN] + blob[IOTV_HDR_LEN..];
    if g[..|blob|] == blob {
      BlobAtStart(g, blob);
    }
  }

  /** Power loss while the blob is written, after any number of bytes: the next boot loads the
      whole new blob if and only if all its bytes are there; it loads anything else if and only
      if the cut is one of `TornHead`, and then that has the new payload. */
  lemma CrashDuringWrite(f: seq<byte>, blob: seq<byte>, k: nat)
    requires Validate(blob) == Valid && RoundUp(|blob|) <= |f| && k <= |blob|
    requires CrcDetects(Programmed(ErasedAll(f, RoundUp(|blob|)), blob, k), blob[IOTV_HDR_LEN..])
    ensures var g := Programmed(ErasedAll(f, RoundUp(|blob|)), blob, k);
      && (Stored(g) == Loaded(blob) <==> AllErased(blob[k..]))
      && (Stored(g).Loaded? && Stored(g).blob != blob <==> TornHead(blob, k))
      && (Stored(g).Loaded? ==> |Stored(g).blob| == |blob| && Stored(g).blob[IOTV_HDR_LEN..] == blob[IOTV_HDR_LEN..])
  {
    var g := Programmed(ErasedAll(f, RoundUp(|blob|)), blob, k);
    CutBytes(f, blob, k);
    ValidIsLong(blob);
    hide Validate, Stored, ErasedAll, Programmed, RoundUp;
    if k < 12 {
      CutInLength(g, blob, k);
      StoredIs(g);
      assert blob[k..][11 - k] == 0;
    } else if k < IOTV_HDR_LEN {
      CutInHead(g, blob, k);
      HeadCut(g, blob, k);
    } else {
      assert g[..IOTV_HDR_LEN] == blob[..IOTV_HDR_LEN];
      CutInPayload(g, blob);
      assert !TornHead(blob, k);
    }
  }

  // A cut in the header is no loss exactly when only 0xFF was to follow.
  lemma HeadCut(g: seq<byte>, blob: seq<byte>, k: nat)
    requires |g| >= |blob| >= IOTV_HDR_LEN > k
    requires (forall i :: 0 <= i < k ==> g[i] == blob[i]) && (forall i :: k <= i < |blob| ==> g[i] == 0xFF)
    ensures AllErased(blob[IOTV_HDR_LEN..]) ==> g[IOTV_HDR_LEN..|blob|] == blob[IOTV_HDR_LEN..]
    ensures AllErased(blob[IOTV_HDR_LEN..]) ==>
      (AllErased(blob[k..]) <==> !exists j :: k <= j < IOTV_HDR_LEN && blob[j] != 0xFF)
    ensures AllErased(blob[k..]) ==> AllErased(blob[IOTV_HDR_LEN..]) && forall j :: k <= j < 16 ==> blob[j] == 0xFF
  {
    assert forall i :: k <= i < |blob| ==> blob[i] == blob[k..][i - k];
    assert forall i :: IOTV_HDR_LEN <= i < |blob| ==> blob[i] == blob[IOTV_HDR_LEN..][i - IOTV_HDR_LEN];
    assert AllErased(blob[k..]) ==>
      forall i :: 0 <= i < |blob| - IOTV_HDR_LEN ==> blob[IOTV_HDR_LEN..][i] == blob[IOTV_HDR_LEN + i];
  }

  /** The checksum covers the payload only.  A write cut off inside the name field is loaded as
      a blob that was never saved exactly when the payload is all 0xFF and a byte of the name
      that is not is missing. */
  lemma TornNameIsLoaded(f: seq<byte>, blob: seq<byte>, k: nat)
    requires Validate(blob) == Valid && RoundUp(|blob|) <= |f| && 16 <= k < IOTV_HDR_LEN && k <= |blob|
    requires CrcDetects(Programmed(ErasedAll(f, RoundUp(|blob|)), blob, k), blob[IOTV_HDR_LEN..])
    ensures var g := Programmed(ErasedAll(f, RoundUp(|blob|)), blob, k);
      (Stored(g).Loaded? && Stored(g).blob != blob) <==>
      AllErased(blob[IOTV_HDR_LEN..]) && exists j :: k <= j < IOTV_HDR_LEN && blob[j] != 0xFF
  {
    CrashDuringWrite(f, blob, k);
  }

  // ---------- whole histories of a partition ----------

  datatype Event =
    | SaveDone(blob: seq<byte>)
    | SaveCutInErase(blob: seq<byte>, sectors: set<nat>)
    | SaveCutInWrite(blob: seq<byte>, written: nat)
    | ResetDone
    | ResetCut(sectors: set<nat>)

  function After(f: seq<byte>, e: Event): (g: seq<byte>)
    requires e.SaveDone? || e.SaveCutInWrite? ==> |e.blob| <= |f|
    requires e.SaveCutInWrite? ==> e.written <= |e.blob|
    ensures |g| == |f|
  {
    match e
    case SaveDone(b) => Programmed(ErasedAll(f, RoundUp(|b|)), b, |b|)
    case SaveCutInErase(b, sectors) => Erased(f, RoundUp(|b|), sectors)
    case SaveCutInWrite(b, k) => Programmed(ErasedAll(f, RoundUp(|b|)), b, k)
    case ResetDone => ErasedAll(f, FLASH_SECTOR)
    case ResetCut(sectors) => Erased(f, FLASH_SECTOR, sectors)
  }

  // Only validated blobs that fit are saved, and the checksum detects what a power loss tears.
  ghost predicate Plausible(f: seq<byte>, e: Event) {
    && FLASH_SECTOR <= |f|
    && (e.SaveDone? || e.SaveCutInErase? || e.SaveCutInWrite? ==>
          Validate(e.blob) == Valid && RoundUp(|e.blob|) <= |f|)
    && (e.SaveCutInWrite? ==> e.written <= |e.blob| && CrcDetects(After(f, e), e.blob[IOTV_HDR_LEN..]))
    && (e.SaveCutInErase? || e.ResetCut? ==> Announces(f) ==> CrcDetects(After(f, e), Announced(f)))
  }

  // The event is a cut that leaves the blob's payload under a name that is not its own.
  predicate LeavesTornHead(e: Event) {
    e.SaveCutInWrite? && |e.blob| >= IOTV_HDR_LEN && TornHead(e.blob, e.written)
  }

  predicate IsSave(e: Event) {
    !e.ResetDone? && !e.ResetCut?
  }

  /** One event: afterwards the partition loads what it loaded before, or the new blob whole, or
      nothing; a completed save or reset has its full effect.  The one exception is a cut of
      `TornHead`, which loads the new payload under another name. */
  lemma EventIsAtomic(f: seq<byte>, e: Event)
    requires Plausible(f, e)
    ensures var g := After(f, e);
      && (Stored(g).Loaded? && !LeavesTornHead(e) ==>
            Stored(g) == Stored(f) || (IsSave(e) && Stored(g) == Loaded(e.blob)))
      && (LeavesTornHead(e) ==>
            && Stored(g).Loaded? && Stored(g).blob != e.blob && |Stored(g).blob| == |e.blob|
            && AllErased(e.blob[IOTV_HDR_LEN..]) && Stored(g).blob[IOTV_HDR_LEN..] == e.blob[IOTV_HDR_LEN..])
      && (e.SaveDone? ==> Stored(g) == Loaded(e.blob))
      && (e.ResetDone? ==> !Stored(g).Loaded?)
  {
    hide Validate, CrcDetects, Announces, Announced, Stored, Erased, ErasedAll, Programmed, AllErased;
    match e
    case SaveDone(b) => SaveThenLoad(f, b);
    case SaveCutInErase(b, sectors) => ValidIsLong(b); CrashDuringErase(f, RoundUp(|b|), sectors);
    case SaveCutInWrite(b, k) => ValidIsLong(b); CrashDuringWrite(f, b, k);
    case ResetDone => EraseForgets(f, FLASH_SECTOR);
    case ResetCut(sectors) => CrashDuringErase(f, FLASH_SECTOR, sectors);
  }

  lemma ValidIsLong(b: seq<byte>)
    requires Validate(b) == Valid
    ensures |b| > IOTV_HDR_LEN && RoundUp(|b|) >= FLASH_SECTOR
  {
  }

  ghost predicate History(images: seq<seq<byte>>, events: seq<Event>) {
    && |images| == |events| + 1
    && forall i :: 0 <= i < |events| ==> Plausible(images[i], events[i]) && images[i + 1] == After(images[i], events[i])
  }

  // Some save of the history was given this blob; or its payload, if that is all 0xFF.
  ghost predicate WasSaved(events: seq<Event>, n: nat, blob: seq<byte>) {
    exists i :: 0 <= i < n <= |events| && IsSave(events[i]) && events[i].blob == blob
  }

  ghost predicate ErasedPayloadWasSaved(events: seq<Event>, n: nat, blob: seq<byte>) {
    exists i :: 0 <= i < n <= |events| && LeavesTornHead(events[i]) && |blob| == |events[i].blob|
                && blob[IOTV_HDR_LEN..] == events[i].blob[IOTV_HDR_LEN..]
  }

  /** After any history of saves, resets and power losses, what the partition loads is a blob
      that was handed to a save, whole, or what was stored before it all began.  Only a payload
      that is all 0xFF can come back under a torn name. */
  lemma {:induction false} NeverAMixture(images: seq<seq<byte>>, events: seq<Event>, n: nat)
    requires History(images, events) && n <= |events|
    ensures Stored(images[n]).Loaded? ==>
      var blob := Stored(images[n]).blob;
      || Stored(images[n]) == Stored(images[0]) || WasSaved(events, n, blob) || ErasedPayloadWasSaved(events, n, blob)
  {
    hide Stored, Plausible;
    if n > 0 {
      NeverAMixture(images, events, n - 1);
      EventIsAtomic(images[n - 1], events[n - 1]);
    }
  }
}
