/** Delivery of the tiny classifier: find the model in a downloaded zip, validate it, and make it
    the resident blob that inference reads in place. */
module MlpDelivery {
  import opened Bytes
  import opened MlpNet
  import opened MlpBlob
  import opened Options
  import E = MlpEngine
  import Z = ZipWalk

  predicate IsIotm(p: seq<byte>) {
    |p| >= HDR_LEN && p[..4] == IOTM_MAGIC
  }

  lemma PackedIsIotm(m: Model)
    requires Packable(m)
    ensures IsIotm(Pack(m))
  {
    FixedFields(m, Crc32(WordBytes(Flat(m))), WordBytes(Flat(m)));
  }

  /** A zip whose first stored IOTM entry is a packed model is found to hold exactly that model. */
  lemma ZippedModelComesBack(es: seq<Z.Entry>, i: nat, tail: seq<byte>, m: Model)
    requires Packable(m) && i < |es| && es[i].data == Pack(m) && Z.EndsEntries(tail)
    requires es[i].comp == 0 && !Z.Encrypted(es[i].flags) && !Z.HasDescriptor(es[i].flags)
    requires forall k :: 0 <= k < i ==> !Z.HasDescriptor(es[k].flags) && !Z.Wanted(es[k], IsIotm)
    ensures var buf, start, len := Z.Archive(es) + tail, Z.DataStart(es, i), |Pack(m)|;
      Z.Walk(buf, IsIotm) == Z.Found(start, len) && start + len <= |buf| && buf[start..start + len] == Pack(m)
  {
    hide *;
    PackedIsIotm(m);
    IotmEntryIsWanted(es[i]);
    Z.IsFirstWanted(es, i, IsIotm);
    Z.FirstFound(es, i, tail, IsIotm);
  }

  lemma IotmEntryIsWanted(e: Z.Entry)
    requires e.comp == 0 && !Z.Encrypted(e.flags) && IsIotm(e.data)
    ensures Z.Wanted(e, IsIotm)
  {
  }

  // The blob v with a byte of its checksum or its weights altered.
  predicate DamagedTo(v: seq<byte>, i: nat, x: byte, b: seq<byte>) {
    60 <= i < |v| && x != v[i] && b == v[i := x]
  }

  lemma NotDamaged(b: seq<byte>)
    ensures forall v, i, x :: Validate(v) == Valid && DamagedTo(v, i, x, b) ==> Validate(b) != Valid
  {
    hide Validate;
    forall v, i, x | Validate(v) == Valid && DamagedTo(v, i, x, b)
      ensures Validate(b) != Valid
    {
      AlteredByteIff(v, i, x);
    }
  }

  datatype Source = NoSource | FromBuiltin | FromFlash | FromCloud

  /** The resident model, and the blob kept in the settings store, which replaces its value whole
      or not at all. */
  class Classifier {
    const blob: array<byte>
    var len: nat
    var src: Source
    var saved: Option<seq<byte>>

    // The resident blob is valid as soon as there is one.
    ghost predicate Consistent()
      reads this, blob
    {
      blob.Length == MAX_BLOB && len <= MAX_BLOB && (len > 0 ==> Validate(blob[..len]) == Valid)
    }

    // After power-up nothing is resident; the settings store is whatever it was.
    constructor (stored: Option<seq<byte>>)
      ensures Consistent() && len == 0 && saved == stored && fresh(blob)
    {
      blob := new byte[MAX_BLOB](_ => 0);
      len, src, saved := 0, NoSource, stored;
    }

    /** A valid blob replaces the resident one and, if it is to be kept and the store takes it,
        the saved one; any other leaves both untouched.  What is copied always fits. */
    method Install(b: seq<byte>, from: Source, persist: bool, storeOk: bool) returns (ok: bool)
      requires Consistent()
      modifies this, blob
      ensures Consistent() && ok == (Validate(b) == Valid)
      ensures ok ==> len == |b| > 0 && blob[..len] == b && src == from
      ensures saved == if ok && persist && storeOk then Some(b) else old(saved)
      ensures ok ==> |b| >= 64 && b[..4] == Ascii("IOTM") && b[60..64] == Le32(Crc32(b[64..]))
      // No valid blob is accepted with a byte of its weights or of their checksum altered.
      ensures forall v, i, x :: Validate(v) == Valid && DamagedTo(v, i, x, b) ==> !ok
      ensures !ok ==> len == old(len) && src == old(src) && blob[..] == old(blob[..])
    {
      NotDamaged(b);
      ValidIff(b);
      if Validate(b) != Valid {
        return false;
      }
      ValidFits(b);
      hide Validate, DamagedTo, Crc32, Le32, Ascii;
      forall i | 0 <= i < |b| {
        blob[i] := b[i];
      }
      len := |b|;
      src := from;
      assert blob[..len] == b;
      if persist && storeOk {
        saved := Some(b);
      }
      return true;
    }

    /** Boot: a saved blob that reads and validates wins over the built-in one. */
    method Boot(builtin: seq<byte>, readOk: bool)
      requires Consistent() && len == 0
      modifies this, blob
      ensures Consistent() && saved == old(saved)
      ensures if saved.Some? && readOk && Validate(saved.value) == Valid then
                blob[..len] == saved.value && src == FromFlash
              else if Validate(builtin) == Valid then blob[..len] == builtin && src == FromBuiltin
              else len == 0
    {
      hide Validate;
      if saved.Some? && |saved.value| <= MAX_BLOB && readOk {
        var _ := Install(saved.value, FromFlash, false, false);
      }
      if saved.Some? && Validate(saved.value) == Valid {
        ValidFits(saved.value);
      }
      if len == 0 {
        var _ := Install(builtin, FromBuiltin, false, false);
      }
    }

    /** A reset forgets the saved blob and goes back to the built-in one. */
    method Reset(builtin: seq<byte>, deleteOk: bool)
      requires Consistent() && Validate(builtin) == Valid
      modifies this, blob
      ensures Consistent() && blob[..len] == builtin && src == FromBuiltin
      ensures saved == if deleteOk then None else old(saved)
    {
      hide Validate;
      if deleteOk {
        saved := None;
      }
      var _ := Install(builtin, FromBuiltin, false, false);
    }

    /** Inference over the resident blob; the caller supplies at least as many features as the
        model has inputs. */
    method Classify(val: Word -> real, x: seq<real>, exp: real -> real) returns (best: nat, score: real)
      requires Consistent() && len > 8 && blob[8] as int <= |x| && E.IsExp(exp)
      ensures Validate(blob[..len]) == Valid
      ensures MlpNet.IsFirstMax(Scores(E.NetIn(blob[..len], val), blob[8], x), best)
      ensures E.IsSoftmax(score, Scores(E.NetIn(blob[..len], val), blob[8], x), best, exp)
      ensures 1.0 / blob[10] as int as real <= score <= 1.0
    {
      assert Validate(blob[..len]) == Valid;
      E.ValidHeader(blob[..len]);
      assert blob[..len][8] == blob[8] && blob[..len][10] == blob[10];
      hide Validate, Scores, E.NetIn, E.IsExp, E.IsSoftmax, MlpNet.IsFirstMax;
      best, score := E.Infer(blob[..len], val, x, exp);
    }
  }
}
