/** Delivery of a vision model: normalise what was downloaded in the staging buffer, validate it,
    load it on trial, and make it the active model or roll back to the one that is active. */
module ModelInstall {
  import opened Bytes
  import opened ModelEnvelope
  import Z = ZipWalk
  import S = ModelStore

  // "unversioned" and "person-builtin"
  const UNVERSIONED: seq<byte> := [0x75, 0x6E, 0x76, 0x65, 0x72, 0x73, 0x69, 0x6F, 0x6E, 0x65, 0x64]
  const PERSON_BUILTIN: seq<byte> :=
    [0x70, 0x65, 0x72, 0x73, 0x6F, 0x6E, 0x2D, 0x62, 0x75, 0x69, 0x6C, 0x74, 0x69, 0x6E]

  predicate IsIotv(p: seq<byte>) {
    |p| >= IOTV_HDR_LEN && p[..4] == IOTV_MAGIC
  }

  predicate IsTflite(p: seq<byte>) {
    |p| >= 8 && p[4..8] == TFL3
  }

  predicate EntryIsModel(p: seq<byte>) {
    IsIotv(p) || IsTflite(p)
  }

  // ---------- normalising a download ----------

  datatype Normal = Iotv(blob: seq<byte>) | BadZip(why: Z.Result) | TooLarge | Unknown

  function NormalPayload(p: seq<byte>): Normal {
    if IsIotv(p) then Iotv(p)
    else if IsTflite(p) then (if |p| > PAYLOAD_MAX then TooLarge else Iotv(Blob(p, 0, UNVERSIONED)))
    else Unknown
  }

  predicate LooksZipped(body: seq<byte>) {
    |body| >= 4 && body[..2] == [0x50, 0x4B]
  }

  function Normalized(body: seq<byte>): Normal {
    if !LooksZipped(body) then NormalPayload(body)
    else
      WalkStaysInside(body);
      match Z.Walk(body, EntryIsModel)
      case Found(start, len) => NormalPayload(body[start..start + len])
      case r => BadZip(r)
  }

  lemma WalkStaysInside(body: seq<byte>)
    ensures var r := Z.Walk(body, EntryIsModel);
      r.Found? ==> r.start + r.len <= |body| && EntryIsModel(body[r.start..r.start + r.len])
  {
    FromStaysInside(body, 0, false);
  }

  lemma {:induction false} FromStaysInside(body: seq<byte>, off: nat, seen: bool)
    ensures var r := Z.WalkFrom(body, EntryIsModel, off, seen);
      r.Found? ==> r.start + r.len <= |body| && EntryIsModel(body[r.start..r.start + r.len])
    decreases |body| - off
  {
    hide EntryIsModel, GetLe16, GetLe32;
    if Z.EntryAt(body, off) {
      var next := Z.DataOff(body, off) + GetLe32(body, off + 18);
      FromStaysInside(body, next, seen || GetLe16(body, off + 8) != 0);
    }
  }

  // A move between overlapping regions of one buffer.
  method MemMove(a: array<byte>, dst: nat, src: nat, n: nat)
    requires dst + n <= a.Length && src + n <= a.Length
    modifies a
    ensures a[dst..dst + n] == old(a[src..src + n]) && a[..dst] == old(a[..dst]) && a[dst + n..] == old(a[dst + n..])
  {
    forall i | 0 <= i < n {
      a[dst + i] := a[src + i];
    }
  }

  method MemCopy(a: array<byte>, dst: nat, data: seq<byte>)
    requires dst + |data| <= a.Length
    modifies a
    ensures a[dst..dst + |data|] == data && a[..dst] == old(a[..dst]) && a[dst + |data|..] == old(a[dst + |data|..])
  {
    forall i | 0 <= i < |data| {
      a[dst + i] := data[i];
    }
  }

  // Write the header in front of a payload that is already in place.
  method WrapInPlace(buf: array<byte>, payloadLen: nat, ver: u16, name: seq<byte>)
    requires IOTV_HDR_LEN + payloadLen <= buf.Length && payloadLen <= U32_MAX
    modifies buf
    ensures buf[..IOTV_HDR_LEN + payloadLen] == old(Blob(buf[IOTV_HDR_LEN..IOTV_HDR_LEN + payloadLen], ver, name))
    ensures buf[IOTV_HDR_LEN..] == old(buf[IOTV_HDR_LEN..])
  {
    hide Header;
    var payload := buf[IOTV_HDR_LEN..IOTV_HDR_LEN + payloadLen];
    MemCopy(buf, 0, Header(payload, ver, name));
    assert buf[0..IOTV_HDR_LEN] == buf[..IOTV_HDR_LEN];
    assert buf[IOTV_HDR_LEN..IOTV_HDR_LEN + payloadLen] == buf[IOTV_HDR_LEN..][..payloadLen] == payload;
    assert buf[..IOTV_HDR_LEN + payloadLen] == buf[..IOTV_HDR_LEN] + buf[IOTV_HDR_LEN..IOTV_HDR_LEN + payloadLen];
  }

  // Bring a payload found somewhere in the buffer to its start, as an IOTV blob.
  method Settle(staging: array<byte>, start: nat, len: nat) returns (r: Normal, outLen: nat)
    requires start + len <= staging.Length == MODEL_MAX_BLOB
    modifies staging
    ensures r == NormalPayload(old(staging[start..start + len])) && !r.BadZip?
    ensures r.Iotv? ==> outLen == |r.blob| <= MODEL_MAX_BLOB && staging[..outLen] == r.blob
    ensures !r.Iotv? ==> staging[..] == old(staging[..])
  {
    hide Blob;
    var p := staging[start..start + len];
    outLen := 0;
    if IsIotv(p) {
      MemMove(staging, 0, start, len);
      assert staging[..len] == staging[0..len];
      return Iotv(p), len;
    }
    if IsTflite(p) {
      if len > PAYLOAD_MAX {
        return TooLarge, 0;
      }
      MemMove(staging, IOTV_HDR_LEN, start, len);
      WrapInPlace(staging, len, 0, UNVERSIONED);
      return Iotv(Blob(p, 0, UNVERSIONED)), IOTV_HDR_LEN + len;
    }
    return Unknown, 0;
  }

  lemma SlicesAgree(s: seq<byte>, n: nat, start: nat, len: nat)
    requires start + len <= n <= |s|
    ensures s[..n][start..start + len] == s[start..start + len]
  {
  }

  /** Turn the first `bodyLen` bytes of the staging buffer into an IOTV blob at its start. */
  method Normalize(staging: array<byte>, bodyLen: nat) returns (r: Normal, outLen: nat)
    requires bodyLen <= staging.Length == MODEL_MAX_BLOB
    modifies staging
    ensures r == Normalized(old(staging[..bodyLen]))
    ensures r.Iotv? ==> outLen == |r.blob| <= MODEL_MAX_BLOB && staging[..outLen] == r.blob
    ensures !r.Iotv? ==> staging[..] == old(staging[..])
  {
    hide NormalPayload, EntryIsModel, Z.Walk;
    ghost var body := staging[..bodyLen];
    var start, len := 0, bodyLen;
    assert bodyLen >= 2 ==> body[..2] == staging[..2];
    if bodyLen >= 4 && staging[..2] == [0x50, 0x4B] {
      WalkStaysInside(body);
      var z := Z.FindStored(staging, bodyLen, EntryIsModel);
      if !z.Found? {
        return BadZip(z), 0;
      }
      start, len := z.start, z.len;
    }
    SlicesAgree(staging[..], bodyLen, start, len);
    assert staging[..][start..start + len] == staging[start..start + len];
    r, outLen := Settle(staging, start, len);
  }

  /** A raw model becomes a blob that the validator accepts. */
  lemma WrappedModelValidates(p: seq<byte>)
    requires !IsIotv(p) && IsTflite(p) && |p| <= PAYLOAD_MAX
    ensures NormalPayload(p) == Iotv(Blob(p, 0, UNVERSIONED)) && Validate(Blob(p, 0, UNVERSIONED)) == Valid
  {
    WrapValidates(p, 0, UNVERSIONED);
  }

  // A flatbuffer as it is downloaded: not a zip, and with the text "TFL3" after four bytes.
  predicate IsRawModel(body: seq<byte>) {
    && 8 <= |body| <= 524256 && body[4..8] == Ascii("TFL3")
    && body[..2] != Ascii("PK") && body[..4] != Ascii("IOTV")
  }

  /** What becomes of a flatbuffer: it is wrapped as version 0 under the name "unversioned". */
  lemma RawModelIsWrapped(body: seq<byte>)
    requires IsRawModel(body)
    ensures var blob := Blob(body, 0, Ascii("unversioned"));
      Normalized(body) == Iotv(blob) && Validate(blob) == Valid && blob[32..] == body
  {
    Texts();
    hide Blob, Ascii, Validate;
    WrapValidates(body, 0, UNVERSIONED);
    BlobFields(body, 0, UNVERSIONED);
  }

  /** What becomes of the other downloads that are no zip: a blob stays as it is, and what is
      neither a blob nor a flatbuffer is refused. */
  lemma BlobStays(body: seq<byte>)
    requires |body| >= 32 && body[..4] == Ascii("IOTV")
    ensures Normalized(body) == Iotv(body)
  {
    Texts();
    hide Ascii;
    assert body[..2] == body[..4][..2];
  }

  lemma OthersRefused(body: seq<byte>)
    requires |body| >= 4 ==> body[..2] != Ascii("PK")
    requires |body| >= 8 ==> body[4..8] != Ascii("TFL3")
    requires |body| >= 32 ==> body[..4] != Ascii("IOTV")
    ensures Normalized(body) == Unknown
  {
    Texts();
    hide Ascii;
  }

  lemma Texts()
    ensures Ascii("PK") == [0x50, 0x4B] && Ascii("TFL3") == TFL3 && Ascii("IOTV") == IOTV_MAGIC
    ensures Ascii("unversioned") == UNVERSIONED && Ascii("person-builtin") == PERSON_BUILTIN
    ensures Ascii("IOTV")[..2] != Ascii("PK")
  {
    assert [0x49, 0x4F][0] != [0x50, 0x4B][0];
  }

  /** A zip whose first stored, unencrypted model entry is a blob built by the packing tool
      comes back as exactly that blob, and the validator accepts it. */
  lemma ZippedBlobComesBack(es: seq<Z.Entry>, i: nat, tail: seq<byte>, payload: seq<byte>, ver: u16, name: seq<byte>)
    requires i < |es| && Z.EndsEntries(tail)
    requires BuildIotv(payload, ver, name) == Ok(es[i].data)
    requires es[i].comp == 0 && !Z.Encrypted(es[i].flags) && !Z.HasDescriptor(es[i].flags)
    requires forall k :: 0 <= k < i ==> !Z.HasDescriptor(es[k].flags) && !Z.Wanted(es[k], EntryIsModel)
    ensures Normalized(Z.Archive(es) + tail) == Iotv(es[i].data) && Validate(es[i].data) == Valid
  {
    BuiltIsIotv(payload, ver, name);
    hide *;
    IotvIsModel(es[i].data);
    EntryIsWanted(es[i]);
    Z.IsFirstWanted(es, i, EntryIsModel);
    Z.FirstFound(es, i, tail, EntryIsModel);
    FoundPayload(Z.Archive(es) + tail, Z.DataStart(es, i), es[i].data);
    IotvIsKept(es[i].data);
  }

  lemma IotvIsModel(p: seq<byte>)
    requires IsIotv(p)
    ensures EntryIsModel(p)
  {
  }

  lemma EntryIsWanted(e: Z.Entry)
    requires e.comp == 0 && !Z.Encrypted(e.flags) && EntryIsModel(e.data)
    ensures Z.Wanted(e, EntryIsModel)
  {
  }

  lemma BuiltIsIotv(payload: seq<byte>, ver: u16, name: seq<byte>)
    ensures var r := BuildIotv(payload, ver, name); r.Ok? ==> IsIotv(r.blob) && Validate(r.blob) == Valid
  {
    BuiltValidates(payload, ver, name);
    if BuildIotv(payload, ver, name).Ok? {
      BlobFields(payload, ver, name);
    }
  }

  // The walk's finding is what becomes the model.
  lemma FoundPayload(buf: seq<byte>, start: nat, d: seq<byte>)
    requires Z.EntryAt(buf, 0) && Z.Walk(buf, EntryIsModel) == Z.Found(start, |d|)
    requires start + |d| <= |buf| && buf[start..start + |d|] == d
    ensures Normalized(buf) == NormalPayload(d)
  {
    hide Z.Walk, NormalPayload;
    assert buf[0..4][..2] == buf[..2];
  }

  lemma IotvIsKept(d: seq<byte>)
    requires IsIotv(d)
    ensures NormalPayload(d) == Iotv(d)
  {
  }

  /** The same for a zip whose first stored, unencrypted model entry is a flatbuffer. */
  lemma ZippedRawModelIsWrapped(es: seq<Z.Entry>, i: nat, tail: seq<byte>)
    requires i < |es| && Z.EndsEntries(tail) && IsRawModel(es[i].data)
    requires es[i].comp == 0 && !Z.Encrypted(es[i].flags) && !Z.HasDescriptor(es[i].flags)
    requires forall k :: 0 <= k < i ==> !Z.HasDescriptor(es[k].flags) && !Z.Wanted(es[k], EntryIsModel)
    ensures Normalized(Z.Archive(es) + tail) == Iotv(Blob(es[i].data, 0, Ascii("unversioned")))
  {
    hide *;
    RawModelPayload(es[i].data);
    EntryIsWanted(es[i]);
    Z.IsFirstWanted(es, i, EntryIsModel);
    Z.FirstFound(es, i, tail, EntryIsModel);
    FoundPayload(Z.Archive(es) + tail, Z.DataStart(es, i), es[i].data);
  }

  lemma RawModelPayload(p: seq<byte>)
    requires IsRawModel(p)
    ensures EntryIsModel(p) && NormalPayload(p) == Iotv(Blob(p, 0, Ascii("unversioned")))
  {
    Texts();
    hide Blob, Ascii;
  }

  // ---------- the active model ----------

  datatype Source = NoSource | FromBuiltin | FromFlash | FromCloud
  // The interpreter's two tests: the schema version, checked before the old interpreter is
  // destroyed, and whether the model can be set up at all.
  datatype Tests = Tests(schema: seq<byte> -> bool, setup: seq<byte> -> bool) {
    predicate Loads(model: seq<byte>) {
      schema(model) && setup(model)
    }

    predicate Accepts(blob: seq<byte>) {
      Validate(blob) == Valid && Loads(blob[IOTV_HDR_LEN..])
    }
  }

  // What matters of a device between installs; no blob is active before the first.
  datatype Life = Life(flash: seq<byte>, active: seq<byte>, src: Source)

  function AfterInstall(s: Life, t: Tests, blob: seq<byte>, from: Source): Life {
    if t.Accepts(blob) then s.(active := blob, src := from) else s
  }

  function AfterPush(s: Life, t: Tests, body: seq<byte>, e: S.EraseResult, w: S.WriteResult): Life {
    match Normalized(body)
    case Iotv(blob) =>
      if t.Accepts(blob) then Life(S.SaveImage(s.flash, blob, e, w), blob, FromCloud) else s
    case _ => s
  }

  function AfterReset(s: Life, t: Tests, e: S.EraseResult, fallback: seq<byte>): Life {
    AfterInstall(s.(flash := S.InvalidImage(s.flash, e)), t, fallback, FromBuiltin)
  }

  function AfterBoot(s: Life, t: Tests, fallback: seq<byte>): Life {
    var st := S.Stored(s.flash);
    if st.Loaded? && t.Accepts(st.blob) then AfterInstall(s, t, st.blob, FromFlash)
    else AfterInstall(s, t, fallback, FromBuiltin)
  }

  datatype Interp = Nothing | OverStaging(model: seq<byte>) | OverActive(model: seq<byte>)

  /** The device's model state.  The interpreter reads its model in place, so it is described by
      the buffer it points into and the bytes it was initialised over. */
  class Device {
    const staging: array<byte>
    const active: array<byte>
    const store: S.Store
    const builtin: seq<byte>
    const tests: Tests
    var activeLen: nat
    var src: Source
    var interp: Interp

    ghost function View(): Life
      requires activeLen <= active.Length
      reads this, active, store, store.flash
    {
      Life(store.flash[..], active[..activeLen], src)
    }

    ghost function Fallback(): seq<byte>
      requires |builtin| <= PAYLOAD_MAX
    {
      Blob(builtin, 1, PERSON_BUILTIN)
    }

    ghost predicate Buffers()
      reads this
    {
      && staging.Length == active.Length == MODEL_MAX_BLOB && staging != active
      && store.flash != staging && store.flash != active && |builtin| <= PAYLOAD_MAX
    }

    /** Whenever no install is under way: no model is active yet, or the active bytes are a valid
        blob and the interpreter is live over exactly those resident bytes. */
    ghost predicate Consistent()
      reads this, active
    {
      Buffers() && activeLen <= MODEL_MAX_BLOB
      && (activeLen > 0 ==> tests.Accepts(active[..activeLen]) && interp == OverActive(active[IOTV_HDR_LEN..activeLen]))
    }

    // After power-up nothing is active.
    constructor (st: S.Store, builtinModel: seq<byte>, t: Tests)
      requires |builtinModel| <= PAYLOAD_MAX
      ensures Consistent() && activeLen == 0 && store == st && builtin == builtinModel && tests == t
      ensures fresh(staging) && fresh(active)
    {
      staging := new byte[MODEL_MAX_BLOB](_ => 0);
      active := new byte[MODEL_MAX_BLOB](_ => 0);
      store, builtin, tests := st, builtinModel, t;
      activeLen, src, interp := 0, NoSource, Nothing;
    }

    // Initialise the interpreter over a model in one of the buffers.
    method InitInterp(model: seq<byte>, where: Interp) returns (ok: bool)
      requires where == OverStaging(model) || where == OverActive(model)
      modifies this`interp
      ensures ok == tests.Loads(model)
      ensures interp == if !tests.schema(model) then old(interp) else if tests.setup(model) then where else Nothing
    {
      if !tests.schema(model) {
        return false;
      }
      interp := Nothing;
      if !tests.setup(model) {
        return false;
      }
      interp := where;
      return true;
    }

    // The part of an install that runs under the model lock.
    method Activate(len: nat, from: Source) returns (ok: bool)
      requires Consistent() && len <= MODEL_MAX_BLOB && Validate(staging[..len]) == Valid
      modifies this`activeLen, this`src, this`interp, active
      ensures Consistent() && ok == tests.Accepts(staging[..len])
      ensures ok ==> activeLen == len > 0 && active[..len] == staging[..len] && src == from
      ensures !ok ==> active[..] == old(active[..]) && activeLen == old(activeLen) && src == old(src)
      ensures !ok && activeLen > 0 ==> interp == old(interp)
    {
      var blob := staging[..len];
      S.ValidIsLong(blob);
      hide Validate;
      var model := staging[IOTV_HDR_LEN..len];
      assert model == blob[IOTV_HDR_LEN..];
      var trial := InitInterp(model, OverStaging(model));
      if !trial {
        if activeLen > 0 {
          S.ValidIsLong(active[..activeLen]);
          var running := active[IOTV_HDR_LEN..activeLen];
          assert active[..activeLen][IOTV_HDR_LEN..] == running;
          var _ := InitInterp(running, OverActive(running));
        }
        return false;
      }
      // The bytes that are about to be overwritten are not the interpreter's.
      assert interp.OverStaging?;
      MemCopy(active, 0, blob);
      assert active[..len] == active[0..len] == blob;
      assert active[IOTV_HDR_LEN..len] == active[..len][IOTV_HDR_LEN..] == model;
      activeLen := len;
      src := from;
      var _ := InitInterp(active[IOTV_HDR_LEN..len], OverActive(active[IOTV_HDR_LEN..len]));
      return true;
    }

    /** Install the first `len` bytes of the staging buffer.  An accepted blob becomes the active
        model; a rejected one changes nothing, and the model that was running still runs. */
    method InstallFromStaging(len: nat, from: Source, persist: bool, e: S.EraseResult, w: S.WriteResult)
      returns (ok: bool)
      requires Consistent() && len <= MODEL_MAX_BLOB
      requires (e.EraseFailed? ==> e.err != 0) && (w.WriteFailed? ==> w.err != 0)
      modifies this`activeLen, this`src, this`interp, active, store.flash
      ensures Consistent() && ok == tests.Accepts(staging[..len])
      ensures ok ==> activeLen == len > 0 && active[..len] == staging[..len] && src == from
      ensures !ok ==> active[..] == old(active[..]) && activeLen == old(activeLen) && src == old(src)
      ensures !ok && activeLen > 0 ==> interp == old(interp)
      ensures store.flash[..] ==
              if ok && persist then S.SaveImage(old(store.flash[..]), staging[..len], e, w) else old(store.flash[..])
    {
      hide Validate, S.SaveImage;
      if Validate(staging[..len]) != Valid {
        return false;
      }
      ok := Activate(len, from);
      if ok && persist {
        var _ := store.Save(active[..len], e, w);
      }
    }

    // The factory model goes through the same door.
    method InstallBuiltin() returns (ok: bool)
      requires Consistent()
      modifies this`activeLen, this`src, this`interp, active, staging, store.flash
      ensures Consistent() && ok == tests.Accepts(Fallback())
      ensures View() == AfterInstall(old(View()), tests, Fallback(), FromBuiltin)
      ensures ok ==> activeLen > 0 && active[..activeLen] == Blob(builtin, 1, Ascii("person-builtin"))
      ensures !ok && activeLen > 0 ==> interp == old(interp)
    {
      Texts();
      hide Blob, Validate, Ascii;
      MemCopy(staging, IOTV_HDR_LEN, builtin);
      WrapInPlace(staging, |builtin|, 1, PERSON_BUILTIN);
      ok := InstallFromStaging(IOTV_HDR_LEN + |builtin|, FromBuiltin, false, S.EraseDone, S.WriteDone);
    }

    // The interpreter's tests of a wrapped flatbuffer are those of the flatbuffer.
    lemma RawModelLoads(body: seq<byte>)
      requires IsRawModel(body)
      ensures var blob := Blob(body, 0, Ascii("unversioned"));
        && Normalized(body) == Iotv(blob) && blob[IOTV_HDR_LEN..] == body && tests.Accepts(blob) == tests.Loads(body)
    {
      RawModelIsWrapped(body);
      hide Validate, Normalized, Ascii;
    }

    /** A model pushed from the cloud: `body` is what was downloaded.  It becomes active exactly
        when it normalises to a blob that validates and loads. */
    method PushCloud(body: seq<byte>, e: S.EraseResult, w: S.WriteResult) returns (ok: bool)
      requires Consistent() && |body| <= MODEL_MAX_BLOB
      requires (e.EraseFailed? ==> e.err != 0) && (w.WriteFailed? ==> w.err != 0)
      modifies this`activeLen, this`src, this`interp, active, staging, store.flash
      ensures Consistent()
      ensures ok <==> Normalized(body).Iotv? && tests.Accepts(Normalized(body).blob)
      ensures View() == AfterPush(old(View()), tests, body, e, w)
      ensures ok ==> activeLen > 0
      // A flatbuffer as it is becomes active under a header of its own if it loads.
      ensures IsRawModel(body) ==> ok == tests.Loads(body)
      ensures IsRawModel(body) && ok ==>
        active[..activeLen] == Blob(body, 0, Ascii("unversioned")) && interp == OverActive(body)
      ensures !ok && activeLen > 0 ==> interp == old(interp)
    {
      if IsRawModel(body) {
        RawModelLoads(body);
      }
      hide Validate, Normalized, IsRawModel, Ascii, Blob, S.SaveImage;
      MemCopy(staging, 0, body);
      assert staging[..|body|] == staging[0..|body|];
      var r, len := Normalize(staging, |body|);
      if !r.Iotv? {
        return false;
      }
      ok := InstallFromStaging(len, FromCloud, true, e, w);
    }

    /** Boot choice: a stored model that validates and loads wins, else the built-in one. */
    method Boot() returns (ok: bool)
      requires Consistent() && activeLen == 0
      modifies this`activeLen, this`src, this`interp, active, staging, store.flash
      ensures Consistent() && View() == AfterBoot(old(View()), tests, Fallback()) && ok == (activeLen > 0)
    {
      hide Validate, S.LoadFrom, Blob;
      var ret, len := store.LoadInto(staging, MODEL_MAX_BLOB);
      if ret == 0 {
        ok := InstallFromStaging(len, FromFlash, false, S.EraseDone, S.WriteDone);
        if ok {
          return true;
        }
      }
      ok := InstallBuiltin();
    }

    // Forget the stored model and go back to the built-in one.
    method Reset(e: S.EraseResult) returns (ok: bool)
      requires Consistent() && S.FLASH_SECTOR <= store.flash.Length
      modifies this`activeLen, this`src, this`interp, active, staging, store.flash
      ensures Consistent() && ok == tests.Accepts(Fallback())
      ensures View() == AfterReset(old(View()), tests, e, Fallback())
      ensures !ok && activeLen > 0 ==> interp == old(interp)
    {
      hide Validate, S.InvalidImage, Blob;
      var _ := store.Invalidate(e);
      ok := InstallBuiltin();
    }
  }
}
