/** Whole lives of a device: model pushes, resets, failing flash, power losses inside a save or a
    reset, and boots, in any order.  The theorems say which blob each boot activates. */
module ModelRuns {
  import opened Bytes
  import opened Options
  import opened Arith
  import opened ModelEnvelope
  import opened ModelInstall
  import S = ModelStore

  datatype Event =
    | PowerOff
    | Boot
    | Push(body: seq<byte>, e: S.EraseResult, w: S.WriteResult)
    | PushCutInErase(body: seq<byte>, sectors: set<nat>)
    | PushCutInWrite(body: seq<byte>, written: nat)
    | Reset(e: S.EraseResult)
    | ResetCut(sectors: set<nat>)

  datatype Device = Device(tests: Tests, fallback: seq<byte>)

  predicate IsPush(ev: Event) {
    ev.Push? || ev.PushCutInErase? || ev.PushCutInWrite?
  }

  // The push passes validation and the trial load.
  predicate Takes(d: Device, ev: Event) {
    IsPush(ev) && Normalized(ev.body).Iotv? && d.tests.Accepts(Normalized(ev.body).blob)
  }

  // The push gets as far as the flash.
  predicate Saves(d: Device, ev: Event, f: seq<byte>) {
    Takes(d, ev) && S.RoundUp(|Normalized(ev.body).blob|) <= |f|
  }

  // What the event does to the partition, if anything.
  function FlashEvent(d: Device, ev: Event, f: seq<byte>): Option<S.Event> {
    match ev
    case PowerOff => None
    case Boot => None
    case Push(body, e, w) =>
      if !Saves(d, ev, f) then None
      else
        var b := Normalized(body).blob;
        Some(if e.EraseFailed? then S.SaveCutInErase(b, e.sectors)
             else if w.WriteFailed? then S.SaveCutInWrite(b, Min(w.written, |b|)) else S.SaveDone(b))
    case PushCutInErase(body, sectors) =>
      if Saves(d, ev, f) then Some(S.SaveCutInErase(Normalized(body).blob, sectors)) else None
    case PushCutInWrite(body, k) =>
      if Saves(d, ev, f) then Some(S.SaveCutInWrite(Normalized(body).blob, k)) else None
    case Reset(e) => Some(if e.EraseDone? then S.ResetDone else S.ResetCut(e.sectors))
    case ResetCut(sectors) => Some(S.ResetCut(sectors))
  }

  ghost predicate Enabled(d: Device, s: Life, ev: Event) {
    && (ev.Boot? ==> s.active == []) && (!ev.Boot? && !ev.PowerOff? ==> s.active != [])
    && (FlashEvent(d, ev, s.flash).Some? ==> S.Plausible(s.flash, FlashEvent(d, ev, s.flash).value))
  }

  function Off(f: seq<byte>): Life {
    Life(f, [], NoSource)
  }

  // A cut event switches the device off with the image it leaves.
  function Step(d: Device, s: Life, ev: Event): Life
    requires Enabled(d, s, ev)
  {
    match ev
    case PowerOff => Off(s.flash)
    case Boot => AfterBoot(s, d.tests, d.fallback)
    case Push(body, e, w) => AfterPush(s, d.tests, body, e, w)
    case Reset(e) => AfterReset(s, d.tests, e, d.fallback)
    case _ =>
      var fe := FlashEvent(d, ev, s.flash);
      Off(if fe.Some? then S.After(s.flash, fe.value) else s.flash)
  }

  lemma FlashFollows(d: Device, s: Life, ev: Event)
    requires Enabled(d, s, ev)
    ensures var fe := FlashEvent(d, ev, s.flash);
      Step(d, s, ev).flash == if fe.Some? then S.After(s.flash, fe.value) else s.flash
  {
    hide Normalized, S.Erased, S.ErasedAll, S.Programmed, S.Stored, S.CrcDetects;
  }

  // The states between the events, from power-up with the image f on.
  ghost predicate IsRun(d: Device, f: seq<byte>, states: seq<Life>, events: seq<Event>) {
    && |states| == |events| + 1 && states[0] == Off(f)
    && forall i :: 0 <= i < |events| ==>
         Enabled(d, states[i], events[i]) && states[i + 1] == Step(d, states[i], events[i])
  }

  // ---------- whatever runs was stored at first, pushed, or built in ----------

  // A copy under a torn name, which only a payload of 0xFF can have.
  predicate TornCopy(blob: seq<byte>, b: seq<byte>) {
    && |blob| == |b| >= IOTV_HDR_LEN && S.AllErased(b[IOTV_HDR_LEN..])
    && blob[IOTV_HDR_LEN..] == b[IOTV_HDR_LEN..]
  }

  ghost predicate Known(d: Device, f: seq<byte>, events: seq<Event>, n: nat, blob: seq<byte>) {
    || S.Stored(f) == S.Loaded(blob)
    || exists i :: 0 <= i < n <= |events| && Takes(d, events[i])
                   && (Normalized(events[i].body).blob == blob || TornCopy(blob, Normalized(events[i].body).blob))
  }

  ghost predicate Sound(d: Device, f: seq<byte>, events: seq<Event>, n: nat, s: Life) {
    && (S.Stored(s.flash).Loaded? ==> Known(d, f, events, n, S.Stored(s.flash).blob))
    && (s.active != [] ==>
          d.tests.Accepts(s.active) && (s.active == d.fallback || Known(d, f, events, n, s.active)))
  }

  lemma KnownLater(d: Device, f: seq<byte>, events: seq<Event>, n: nat, blob: seq<byte>)
    requires n < |events| && Known(d, f, events, n, blob)
    ensures Known(d, f, events, n + 1, blob)
  {
  }

  lemma FlashStaysSound(d: Device, f: seq<byte>, events: seq<Event>, n: nat, s: Life)
    requires n < |events| && Enabled(d, s, events[n]) && Sound(d, f, events, n, s)
    ensures var st := S.Stored(Step(d, s, events[n]).flash);
      st.Loaded? ==> Known(d, f, events, n + 1, st.blob)
  {
    var ev := events[n];
    var fe := FlashEvent(d, ev, s.flash);
    FlashFollows(d, s, ev);
    SaveIsPushed(d, ev, s.flash);
    if fe.Some? {
      assert S.Plausible(s.flash, fe.value);
      hide FlashEvent, Normalized, S.Stored, S.After, S.Plausible, Step, S.TornHead, Takes, Known;
      S.EventIsAtomic(s.flash, fe.value);
    }
    hide FlashEvent, Normalized, S.Stored, S.After, S.Plausible, Step, S.TornHead, Takes;
    var st := S.Stored(Step(d, s, ev).flash);
    if S.Stored(s.flash).Loaded? {
      KnownLater(d, f, events, n, S.Stored(s.flash).blob);
    }
    if st.Loaded? && st != S.Stored(s.flash) {
      PushIsKnown(d, f, events, n, st.blob);
    }
  }

  // Only accepted pushes are saved.
  lemma SaveIsPushed(d: Device, ev: Event, f: seq<byte>)
    ensures var fe := FlashEvent(d, ev, f);
      fe.Some? && S.IsSave(fe.value) ==> Takes(d, ev) && fe.value.blob == Normalized(ev.body).blob
    ensures var fe := FlashEvent(d, ev, f); fe.Some? && S.LeavesTornHead(fe.value) ==> S.IsSave(fe.value)
  {
    hide Normalized, S.TornHead, Validate;
  }

  lemma PushIsKnown(d: Device, f: seq<byte>, events: seq<Event>, n: nat, blob: seq<byte>)
    requires n < |events| && Takes(d, events[n])
    requires var b := Normalized(events[n].body).blob; b == blob || TornCopy(blob, b)
    ensures Known(d, f, events, n + 1, blob)
  {
  }

  lemma ActiveStaysSound(d: Device, f: seq<byte>, events: seq<Event>, n: nat, s: Life)
    requires n < |events| && Enabled(d, s, events[n]) && Sound(d, f, events, n, s)
    ensures var s' := Step(d, s, events[n]);
      s'.active != [] ==>
        d.tests.Accepts(s'.active) && (s'.active == d.fallback || Known(d, f, events, n + 1, s'.active))
  {
    if s.active != [] && s.active != d.fallback {
      KnownLater(d, f, events, n, s.active);
    }
    if S.Stored(s.flash).Loaded? {
      KnownLater(d, f, events, n, S.Stored(s.flash).blob);
    }
    var ev := events[n];
    assert Takes(d, ev) ==> Known(d, f, events, n + 1, Normalized(ev.body).blob);
    hide Normalized, S.Stored, S.After, S.Plausible, Known, Validate, FlashEvent;
  }

  lemma {:induction false} RunIsSound(d: Device, f: seq<byte>, states: seq<Life>, events: seq<Event>, n: nat)
    requires IsRun(d, f, states, events) && n <= |events|
    ensures Sound(d, f, events, n, states[n])
  {
    hide Step, Enabled, S.Stored;
    if n > 0 {
      RunIsSound(d, f, states, events, n - 1);
      FlashStaysSound(d, f, events, n - 1, states[n - 1]);
      ActiveStaysSound(d, f, events, n - 1, states[n - 1]);
    }
  }

  /** In every life of a device, whatever is active was accepted by the validator and the trial
      load, and is the built-in model, the model stored at first, or one that was pushed, whole.
      (A payload of 0xFF only, if the interpreter takes one, can also run under a torn name.) */
  lemma WhatRunsWasDelivered(d: Device, f: seq<byte>, states: seq<Life>, events: seq<Event>)
    requires IsRun(d, f, states, events)
    ensures var s := states[|events|];
      s.active != [] ==>
        d.tests.Accepts(s.active) && (s.active == d.fallback || Known(d, f, events, |events|, s.active))
  {
    RunIsSound(d, f, states, events, |events|);
  }

  // ---------- which model a boot runs ----------

  // Events that leave the partition alone.
  predicate Quiet(d: Device, ev: Event) {
    ev.PowerOff? || ev.Boot? || (IsPush(ev) && !Takes(d, ev))
  }

  lemma QuietKeepsFlash(d: Device, s: Life, ev: Event)
    requires Enabled(d, s, ev) && Quiet(d, ev)
    ensures Step(d, s, ev).flash == s.flash
  {
    FlashFollows(d, s, ev);
  }

  lemma {:induction false} QuietRunKeepsFlash(d: Device, f: seq<byte>, states: seq<Life>, events: seq<Event>,
                                              i: nat, n: nat)
    requires IsRun(d, f, states, events) && i <= n <= |events|
    requires forall k :: i <= k < n ==> Quiet(d, events[k])
    ensures states[n].flash == states[i].flash
    decreases n - i
  {
    hide Step, Enabled, Quiet;
    if i < n {
      QuietRunKeepsFlash(d, f, states, events, i, n - 1);
      QuietKeepsFlash(d, states[n - 1], events[n - 1]);
    }
  }

  /** After a push that was accepted and saved without error, every later boot runs exactly that
      blob, until another push is accepted or the model is reset. */
  lemma PushedModelComesBack(d: Device, f: seq<byte>, states: seq<Life>, events: seq<Event>, i: nat, n: nat)
    requires IsRun(d, f, states, events) && i < n < |events|
    requires events[i].Push? && Saves(d, events[i], states[i].flash) && events[i].e.EraseDone? && events[i].w.WriteDone?
    requires (forall k :: i < k < n ==> Quiet(d, events[k])) && events[n].Boot?
    ensures states[n + 1].active == Normalized(events[i].body).blob && states[n + 1].src == FromFlash
  {
    FlashFollows(d, states[i], events[i]);
    S.EventIsAtomic(states[i].flash, S.SaveDone(Normalized(events[i].body).blob));
    QuietRunKeepsFlash(d, f, states, events, i + 1, n);
    hide Normalized, S.Stored, S.After, S.Plausible;
  }

  /** After a reset that erased without error, every later boot runs the built-in model, until a
      push is accepted. */
  lemma ResetModelStaysAway(d: Device, f: seq<byte>, states: seq<Life>, events: seq<Event>, i: nat, n: nat)
    requires IsRun(d, f, states, events) && i < n < |events|
    requires events[i].Reset? && events[i].e.EraseDone?
    requires (forall k :: i < k < n ==> Quiet(d, events[k])) && events[n].Boot?
    ensures states[n + 1].active == if d.tests.Accepts(d.fallback) then d.fallback else []
  {
    FlashFollows(d, states[i], events[i]);
    S.EventIsAtomic(states[i].flash, S.ResetDone);
    QuietRunKeepsFlash(d, f, states, events, i + 1, n);
    hide Normalized, S.Stored, S.After, S.Plausible;
  }

  /** After power was lost inside the save of an accepted push, the next boot runs the model stored
      before, the pushed one, or the built-in one; never anything else, but for a torn name. */
  lemma CutPushBoots(d: Device, s: Life, ev: Event)
    requires Enabled(d, s, ev) && Saves(d, ev, s.flash) && (ev.PushCutInErase? || ev.PushCutInWrite?)
    requires Enabled(d, Step(d, s, ev), Boot)
    ensures var a := Step(d, Step(d, s, ev), Boot).active; var blob := Normalized(ev.body).blob;
      || a == [] || a == d.fallback || a == blob || S.Stored(s.flash) == S.Loaded(a) || TornCopy(a, blob)
  {
    FlashFollows(d, s, ev);
    S.EventIsAtomic(s.flash, FlashEvent(d, ev, s.flash).value);
    hide Normalized, S.Stored, S.After, S.Plausible, S.TornHead, Validate;
  }
}
