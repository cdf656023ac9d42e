/** The hand-off of a snapshot between threads: any number of commands that ask for one, the vision
    loop that captures it, and the worker that encodes and uploads it.  Each action is one access
    to a shared variable; any interleaving is allowed. */
module Snapshot {
  // What is handed over: the pixels, their dimensions, and the text that goes with them.
  datatype Shot = Shot(frame: nat, w: nat, h: nat, text: nat)

  // Where the vision loop stands; `want` is its local copy of "snapshot wanted and not busy".
  datatype VisionPc =
    | ReadWant
    | ReadBusy
    | Capture(want: bool)
    | WriteW
    | WriteH
    | WriteText
    | ClearWant
    | SetBusy
    | Give

  // The worker keeps the encoded image, made of pixels and dimensions, while it uploads.
  datatype WorkerPc = Waiting | Encoding | Uploading(frame: nat, w: nat, h: nat) | Finishing
  datatype CommandPc = Idle | CheckBusy | SetWant

  datatype State = State(
    snapWant: bool, snapBusy: bool, sem: nat,
    shared: Shot,                       // the shared frame buffer, dimensions and text
    vision: VisionPc, worker: WorkerPc, commands: seq<CommandPc>,
    handed: seq<Shot>,                  // what was handed to the worker
    done: seq<Shot>)                    // what the worker read, once it is through with it

  datatype Action =
    | VReadWant | VReadBusy
    | VWrite(pixels: nat)               // the capture stores into the frame buffer
    | VCaptured(ok: bool, sized: bool)  // the capture returns
    | VWriteW(w: nat) | VWriteH(h: nat)
    | VWriteText(text: nat) | VTextDone
    | VClearWant | VSetBusy | VGive
    | WTake | WEncoded(ok: bool) | WUploaded | WFinished
    | CRequest(i: nat) | CBusy(i: nat) | CSet(i: nat)

  // Power-up with n requesters (the cloud command and the shell are two).
  function Init(n: nat): State {
    State(false, false, 0, Shot(0, 0, 0, 0), ReadWant, Waiting, seq(n, _ => Idle), [], [])
  }

  predicate Enabled(s: State, a: Action) {
    match a
    case VReadWant => s.vision == ReadWant
    case VReadBusy => s.vision == ReadBusy
    case VWrite(_) => s.vision == Capture(true)
    case VCaptured(_, _) => s.vision.Capture?
    case VWriteW(_) => s.vision == WriteW
    case VWriteH(_) => s.vision == WriteH
    case VWriteText(_) => s.vision == WriteText
    case VTextDone => s.vision == WriteText
    case VClearWant => s.vision == ClearWant
    case VSetBusy => s.vision == SetBusy
    case VGive => s.vision == Give
    case WTake => s.worker == Waiting && s.sem > 0
    case WEncoded(_) => s.worker == Encoding
    case WUploaded => s.worker.Uploading?
    case WFinished => s.worker == Finishing
    case CRequest(i) => i < |s.commands| && s.commands[i] == Idle
    case CBusy(i) => i < |s.commands| && s.commands[i] == CheckBusy
    case CSet(i) => i < |s.commands| && s.commands[i] == SetWant
  }

  function Step(s: State, a: Action): State
    requires Enabled(s, a)
  {
    match a
    case VReadWant => s.(vision := if s.snapWant then ReadBusy else Capture(false))
    case VReadBusy => s.(vision := Capture(!s.snapBusy))
    case VWrite(px) => s.(shared := s.shared.(frame := px))
    case VCaptured(ok, sized) =>
      s.(vision := if ok && sized && s.vision == Capture(true) then WriteW else ReadWant)
    case VWriteW(w) => s.(shared := s.shared.(w := w), vision := WriteH)
    case VWriteH(h) => s.(shared := s.shared.(h := h), vision := WriteText)
    case VWriteText(t) => s.(shared := s.shared.(text := t))
    case VTextDone => s.(vision := ClearWant)
    case VClearWant => s.(snapWant := false, vision := SetBusy)
    case VSetBusy => s.(snapBusy := true, vision := Give)
    // The semaphore counts to one: a second token would be lost.
    case VGive => s.(sem := if s.sem == 0 then 1 else s.sem, vision := ReadWant, handed := s.handed + [s.shared])
    case WTake => s.(sem := s.sem - 1, worker := Encoding)
    case WEncoded(ok) =>
      if ok then s.(worker := Uploading(s.shared.frame, s.shared.w, s.shared.h))
      else s.(worker := Finishing, done := s.done + [s.shared])
    case WUploaded =>
      s.(worker := Finishing, done := s.done + [Shot(s.worker.frame, s.worker.w, s.worker.h, s.shared.text)])
    case WFinished => s.(snapBusy := false, worker := Waiting)
    case CRequest(i) => s.(commands := s.commands[i := if s.snapWant then Idle else CheckBusy])
    case CBusy(i) => s.(commands := s.commands[i := if s.snapBusy then Idle else SetWant])
    case CSet(i) => s.(snapWant := true, commands := s.commands[i := Idle])
  }

  // The vision loop may be storing into the shared variables, or is about to hand them over.
  predicate OwnsShot(v: VisionPc) {
    v == Capture(true) || v.WriteW? || v.WriteH? || v.WriteText? || v.ClearWant? || v.SetBusy?
  }

  /** The shot has one owner: the vision loop, the token on its way, or the worker; and the busy
      flag says which. */
  ghost predicate Inv(s: State) {
    && s.sem <= 1
    && (if OwnsShot(s.vision) then !s.snapBusy && s.sem == 0 && s.worker == Waiting
        else if s.vision == Give then s.snapBusy && s.sem == 0 && s.worker == Waiting
        else s.snapBusy == (s.sem == 1 || s.worker != Waiting) && !(s.sem == 1 && s.worker != Waiting))
    // What was handed over stays in place until the worker is through with it.
    && s.handed == s.done + (if s.sem == 1 || s.worker.Encoding? || s.worker.Uploading? then [s.shared] else [])
    && (s.worker.Uploading? ==> s.worker == Uploading(s.shared.frame, s.shared.w, s.shared.h))
  }

  lemma StepKeeps(s: State, a: Action)
    requires Inv(s) && Enabled(s, a)
    ensures Inv(Step(s, a))
  {
  }

  ghost predicate Leads(s: State, actions: seq<Action>, s': State)
    decreases |actions|
  {
    if actions == [] then s == s' else Enabled(s, actions[0]) && Leads(Step(s, actions[0]), actions[1..], s')
  }

  lemma {:induction false} RunKeeps(s: State, actions: seq<Action>, s': State)
    requires Inv(s) && Leads(s, actions, s')
    ensures Inv(s')
    decreases |actions|
  {
    hide Inv, Step;
    if actions != [] {
      StepKeeps(s, actions[0]);
      RunKeeps(Step(s, actions[0]), actions[1..], s');
    }
  }

  // An action that stores into one of the shared variables of the hand-off.
  predicate Stores(a: Action) {
    a.VWrite? || a.VWriteW? || a.VWriteH? || a.VWriteText?
  }

  /** Under every interleaving: while the worker encodes or uploads, neither the frame nor its
      dimensions nor its text are stored into; no hand-off token is lost; and what the worker
      reads is what was handed over, once each, whole and in order. */
  lemma FrameIsOwned(n: nat, actions: seq<Action>, s: State)
    requires Leads(Init(n), actions, s)
    ensures s.worker != Waiting || s.sem == 1 ==> forall a :: Stores(a) ==> !Enabled(s, a)
    ensures s.vision == Give ==> s.sem == 0
    ensures s.done <= s.handed && |s.handed| <= |s.done| + 1
    ensures s.worker == Waiting && s.sem == 0 ==> s.done == s.handed
  {
    RunKeeps(Init(n), actions, s);
  }

  // Nothing is under way: no request, no capture, no upload.
  predicate Quiet(s: State) {
    !s.snapWant && !s.snapBusy && s.sem == 0 && s.vision == ReadWant && s.worker == Waiting
  }

  // A request, the capture and hand-off that answer it, and the upload.
  function Request(i: nat): seq<Action> {
    [CRequest(i), CBusy(i), CSet(i)]
  }

  function Fill(shot: Shot): seq<Action> {
    [VReadWant, VReadBusy] + [VWrite(shot.frame), VCaptured(true, true)] + [VWriteW(shot.w), VWriteH(shot.h)]
  }

  function Hand(text: nat): seq<Action> {
    [VWriteText(text), VTextDone] + [VClearWant, VSetBusy] + [VGive]
  }

  const UPLOAD := [WTake, WEncoded(true), WUploaded, WFinished]

  lemma {:induction false} LeadsOn(a: State, xs: seq<Action>, b: State, ys: seq<Action>, c: State)
    requires Leads(a, xs, b) && Leads(b, ys, c)
    ensures Leads(a, xs + ys, c)
    decreases |xs|
  {
    hide Step;
    if xs == [] {
      assert xs + ys == ys;
    } else {
      assert (xs + ys)[1..] == xs[1..] + ys;
      LeadsOn(Step(a, xs[0]), xs[1..], b, ys, c);
    }
  }

  lemma LeadsByOne(s: State, a: Action, more: seq<Action>, s': State)
    requires Enabled(s, a) && Leads(Step(s, a), more, s')
    ensures Leads(s, [a] + more, s')
  {
    hide Step;
    assert ([a] + more)[1..] == more;
  }

  lemma RequestRun(s: State, i: nat)
    requires Quiet(s) && i < |s.commands| && s.commands[i] == Idle
    ensures Leads(s, Request(i), s.(snapWant := true))
  {
    var s1 := Step(s, CRequest(i));
    var s2 := Step(s1, CBusy(i));
    var s3 := Step(s2, CSet(i));
    assert s3.commands == s.commands;
    LeadsByOne(s2, CSet(i), [], s3);
    LeadsByOne(s1, CBusy(i), [CSet(i)], s3);
    LeadsByOne(s, CRequest(i), [CBusy(i), CSet(i)], s3);
    assert [CSet(i)] + [] == [CSet(i)];
    assert [CBusy(i)] + [CSet(i)] == [CBusy(i), CSet(i)];
    assert [CRequest(i)] + [CBusy(i), CSet(i)] == Request(i);
  }

  lemma FillRun(s: State, shot: Shot)
    requires s.snapWant && !s.snapBusy && s.vision == ReadWant
    ensures Leads(s, Fill(shot), s.(shared := shot.(text := s.shared.text), vision := WriteText))
  {
    var c := s.(vision := Capture(true));
    var d := c.(shared := s.shared.(frame := shot.frame), vision := WriteW);
    var s' := s.(shared := shot.(text := s.shared.text), vision := WriteText);
    TwoSteps(s, VReadWant, VReadBusy, c);
    TwoSteps(c, VWrite(shot.frame), VCaptured(true, true), d);
    TwoSteps(d, VWriteW(shot.w), VWriteH(shot.h), s');
    hide Leads;
    LeadsOn(s, [VReadWant, VReadBusy], c, [VWrite(shot.frame), VCaptured(true, true)], d);
    LeadsOn(s, [VReadWant, VReadBusy] + [VWrite(shot.frame), VCaptured(true, true)], d,
            [VWriteW(shot.w), VWriteH(shot.h)], s');
  }

  lemma HandRun(s: State, text: nat)
    requires s.sem == 0 && s.vision == WriteText
    ensures var shot := s.shared.(text := text);
      Leads(s, Hand(text), s.(snapWant := false, snapBusy := true, sem := 1, shared := shot,
                              handed := s.handed + [shot], vision := ReadWant))
  {
    var shot := s.shared.(text := text);
    var c := s.(shared := shot, vision := ClearWant);
    var d := c.(snapWant := false, snapBusy := true, vision := Give);
    var s' := d.(sem := 1, handed := s.handed + [shot], vision := ReadWant);
    TwoSteps(s, VWriteText(text), VTextDone, c);
    TwoSteps(c, VClearWant, VSetBusy, d);
    LeadsByOne(d, VGive, [], s');
    hide Leads;
    assert [VGive] + [] == [VGive];
    LeadsOn(s, [VWriteText(text), VTextDone], c, [VClearWant, VSetBusy], d);
    LeadsOn(s, [VWriteText(text), VTextDone] + [VClearWant, VSetBusy], d, [VGive], s');
  }

  lemma TwoSteps(s: State, a: Action, b: Action, s': State)
    requires Enabled(s, a) && Enabled(Step(s, a), b) && Step(Step(s, a), b) == s'
    ensures Leads(s, [a, b], s')
  {
    LeadsByOne(Step(s, a), b, [], s');
    LeadsByOne(s, a, [b] + [], s');
    assert [a] + ([b] + []) == [a, b];
  }

  lemma UploadRun(s: State)
    requires s.sem == 1 && s.worker == Waiting
    ensures Leads(s, UPLOAD, s.(sem := 0, snapBusy := false, done := s.done + [s.shared]))
  {
    var c := s.(sem := 0, worker := Uploading(s.shared.frame, s.shared.w, s.shared.h));
    var s' := s.(sem := 0, snapBusy := false, done := s.done + [s.shared]);
    TwoSteps(s, WTake, WEncoded(true), c);
    TwoSteps(c, WUploaded, WFinished, s');
    LeadsOn(s, [WTake, WEncoded(true)], c, [WUploaded, WFinished], s');
    assert [WTake, WEncoded(true)] + [WUploaded, WFinished] == UPLOAD;
  }

  /** A request made while nothing is under way can be served: there is a run in which exactly the
      shot captured for it is handed over and uploaded, and after which nothing is under way. */
  lemma RequestIsServed(s: State, i: nat, shot: Shot)
    requires Quiet(s) && i < |s.commands| && s.commands[i] == Idle
    ensures var s' := s.(shared := shot, handed := s.handed + [shot], done := s.done + [shot]);
      Quiet(s') && Leads(s, Request(i) + Fill(shot) + Hand(shot.text) + UPLOAD, s')
  {
    var a := s.(snapWant := true);
    var f := a.(shared := shot.(text := s.shared.text), vision := WriteText);
    var g := s.(snapBusy := true, sem := 1, shared := shot, handed := s.handed + [shot]);
    var u := s.(shared := shot, handed := s.handed + [shot], done := s.done + [shot]);
    RequestRun(s, i);
    FillRun(a, shot);
    HandRun(f, shot.text);
    UploadRun(g);
    hide Leads, Request, Fill, Hand, UPLOAD;
    LeadsOn(s, Request(i), a, Fill(shot), f);
    LeadsOn(s, Request(i) + Fill(shot), f, Hand(shot.text), g);
    LeadsOn(s, Request(i) + Fill(shot) + Hand(shot.text), g, UPLOAD, u);
  }

  // The requests that a run lets through.
  function Requests(actions: seq<Action>): nat
    decreases |actions|
  {
    if actions == [] then 0 else (if actions[0].CSet? then 1 else 0) + Requests(actions[1..])
  }

  // What has been handed over, and what is still asked for or about to be handed over.
  function Answered(s: State): nat {
    |s.handed| + (if s.snapWant then 1 else 0) + (if s.vision.SetBusy? || s.vision.Give? then 1 else 0)
  }

  // Between reading the request and clearing it, it stays.
  predicate WantStays(s: State) {
    (s.vision == ReadBusy || (OwnsShot(s.vision) && !s.vision.SetBusy?)) ==> s.snapWant
  }

  lemma {:induction false} AnsweredGrows(s: State, actions: seq<Action>, s': State)
    requires WantStays(s) && Leads(s, actions, s')
    ensures WantStays(s') && Answered(s') <= Answered(s) + Requests(actions)
    decreases |actions|
  {
    if actions != [] {
      AnswerStep(s, actions[0]);
      hide Step, Answered, WantStays;
      AnsweredGrows(Step(s, actions[0]), actions[1..], s');
    }
  }

  lemma AnswerStep(s: State, a: Action)
    requires WantStays(s) && Enabled(s, a)
    ensures WantStays(Step(s, a)) && Answered(Step(s, a)) <= Answered(s) + if a.CSet? then 1 else 0
  {
  }

  /** Nothing is handed over unasked: no run hands over more shots than requests went through. */
  lemma NothingUnasked(n: nat, actions: seq<Action>, s: State)
    requires Leads(Init(n), actions, s)
    ensures |s.handed| <= Requests(actions)
  {
    AnsweredGrows(Init(n), actions, s);
  }
}

/** The capture buffers: a drain thread that swaps the newest frame in, a consumer that converts
    out of it under a lock, and the capture driver that owns all the others. */
module CaptureBuffers {
  import opened Options

  // The drain thread: what it holds, and where it is around its critical section.
  datatype DrainPc =
    | Dequeue
    | WantLock(vbuf: nat)
    | Swap(vbuf: nat)
    | Unlock(prev: Option<nat>)
    | Enqueue(prev: Option<nat>)

  datatype ConsumerPc = Away | Looking | Converting(buf: nat)

  // `lost` holds the buffers whose re-enqueue failed: the drain thread forgets them.
  datatype State = State(driver: set<nat>, lost: set<nat>, latest: Option<nat>, locked: bool,
                         drain: DrainPc, consumer: ConsumerPc)

  datatype Action = DDequeue(buf: nat) | DLock | DSwap | DUnlock | DEnqueue(ok: bool) | CLock | CLook | CUnlock

  const BUFFERS := {0, 1, 2}
  const INIT := State(BUFFERS, {}, None, false, Dequeue, Away)

  predicate Enabled(s: State, a: Action) {
    match a
    case DDequeue(b) => s.drain == Dequeue && b in s.driver
    case DLock => s.drain.WantLock? && !s.locked
    case DSwap => s.drain.Swap?
    case DUnlock => s.drain.Unlock?
    case DEnqueue(_) => s.drain.Enqueue?
    case CLock => s.consumer == Away && !s.locked
    case CLook => s.consumer == Looking
    case CUnlock => s.consumer.Converting?
  }

  function Step(s: State, a: Action): State
    requires Enabled(s, a)
  {
    match a
    case DDequeue(b) => s.(driver := s.driver - {b}, drain := WantLock(b))
    case DLock => s.(locked := true, drain := Swap(s.drain.vbuf))
    case DSwap => s.(latest := Some(s.drain.vbuf), drain := Unlock(s.latest))
    case DUnlock => s.(locked := false, drain := Enqueue(s.drain.prev))
    case DEnqueue(ok) =>
      if s.drain.prev.None? then s.(drain := Dequeue)
      else if ok then s.(driver := s.driver + {s.drain.prev.value}, drain := Dequeue)
      else s.(lost := s.lost + {s.drain.prev.value}, drain := Dequeue)
    case CLock => s.(locked := true, consumer := Looking)
    case CLook =>
      if s.latest.None? then s.(locked := false, consumer := Away) else s.(consumer := Converting(s.latest.value))
    case CUnlock => s.(locked := false, consumer := Away)
  }

  // The buffers that the drain thread and the consumer know.
  function Held(s: State): set<nat> {
    (if s.latest.Some? then {s.latest.value} else {})
    + (match s.drain
      case Dequeue => {}
      case WantLock(b) => {b}
      case Swap(b) => {b}
      case Unlock(o) => if o.Some? then {o.value} else {}
      case Enqueue(o) => if o.Some? then {o.value} else {})
  }

  // What the drain thread holds besides the latest frame.
  predicate DrainHoldsOther(s: State) {
    match s.drain
    case Dequeue => true
    case WantLock(b) => s.latest != Some(b)
    case Swap(b) => s.latest != Some(b)
    case Unlock(o) => s.latest.Some? && s.latest != o
    case Enqueue(o) => s.latest.Some? && s.latest != o
  }

  ghost predicate Inv(s: State) {
    && s.driver !! Held(s) !! s.lost && s.driver + Held(s) + s.lost == BUFFERS && DrainHoldsOther(s)
    && s.locked == (s.drain.Swap? || s.drain.Unlock? || s.consumer != Away)
    && !((s.drain.Swap? || s.drain.Unlock?) && s.consumer != Away)
    && (s.consumer.Converting? ==> s.latest == Some(s.consumer.buf))
  }

  lemma StepKeeps(s: State, a: Action)
    requires Inv(s) && Enabled(s, a)
    ensures Inv(Step(s, a))
  {
  }

  ghost predicate Leads(s: State, actions: seq<Action>, s': State)
    decreases |actions|
  {
    if actions == [] then s == s' else Enabled(s, actions[0]) && Leads(Step(s, actions[0]), actions[1..], s')
  }

  lemma {:induction false} RunKeeps(s: State, actions: seq<Action>, s': State)
    requires Inv(s) && Leads(s, actions, s')
    ensures Inv(s')
    decreases |actions|
  {
    hide Inv, Step;
    if actions != [] {
      StepKeeps(s, actions[0]);
      RunKeeps(Step(s, actions[0]), actions[1..], s');
    }
  }

  lemma HeldCount(s: State)
    requires Inv(s)
    ensures |Held(s)| <= 2 && (s.drain == Dequeue ==> |Held(s)| == if s.latest.Some? then 1 else 0)
    ensures |s.driver| + |Held(s)| + |s.lost| == 3
  {
    assert |BUFFERS| == 3;
    assert |s.driver + Held(s) + s.lost| == |s.driver| + |Held(s)| + |s.lost|;
  }

  // The drain thread waits for a frame, and no buffer can bring one.
  predicate Starved(s: State) {
    s.drain == Dequeue && s.driver == {}
  }

  lemma {:induction false} StarvedForGood(s: State, actions: seq<Action>, s': State)
    requires Starved(s) && Leads(s, actions, s')
    ensures Starved(s') && s'.latest == s.latest
    decreases |actions|
  {
    if actions != [] {
      StarvedForGood(Step(s, actions[0]), actions[1..], s');
    }
  }

  /** Under every interleaving, failed re-enqueues included: a buffer being converted is the
      latest frame and not the capture driver's.  As long as no re-enqueue has failed the driver
      always has a buffer to capture into; whenever the drain thread waits for a frame, it waits
      in vain exactly when two buffers have been lost, and then no run brings another frame. */
  lemma DriverStarvesIff(actions: seq<Action>, s: State)
    requires Leads(INIT, actions, s)
    ensures s.consumer.Converting? ==> s.latest == Some(s.consumer.buf) && s.consumer.buf !in s.driver
    ensures s.lost == {} ==> s.driver != {}
    ensures s.drain == Dequeue && s.latest.Some? ==> (Starved(s) <==> |s.lost| == 2)
    ensures Starved(s) ==> forall more, s' :: Leads(s, more, s') ==> Starved(s') && s'.latest == s.latest
  {
    RunKeeps(INIT, actions, s);
    WhoHasBuffers(s);
    hide *;
    if Starved(s) {
      StarvedInEveryRun(s);
    }
  }

  lemma WhoHasBuffers(s: State)
    requires Inv(s)
    ensures s.consumer.Converting? ==> s.latest == Some(s.consumer.buf) && s.consumer.buf !in s.driver
    ensures s.lost == {} ==> s.driver != {}
    ensures s.drain == Dequeue && s.latest.Some? ==> (Starved(s) <==> |s.lost| == 2)
  {
    HeldCount(s);
  }

  lemma StarvedInEveryRun(s: State)
    requires Starved(s)
    ensures forall more, s' :: Leads(s, more, s') ==> Starved(s') && s'.latest == s.latest
  {
    hide Starved, Leads;
    forall more, s' | Leads(s, more, s')
      ensures Starved(s') && s'.latest == s.latest
    {
      StarvedForGood(s, more, s');
    }
  }

  // A frame is captured and swapped in, and the consumer takes the latest.
  function FrameRun(b: nat): seq<Action> {
    [DDequeue(b), DLock, DSwap, DUnlock, DEnqueue(true), CLock, CLook]
  }

  /** While neither thread is at work, any buffer of the driver's can bring the consumer its frame;
      the buffer of the frame before goes back to the driver. */
  lemma FrameArrives(s: State, b: nat)
    requires s.drain == Dequeue && s.consumer == Away && !s.locked && b in s.driver
    ensures var back := if s.latest.Some? then {s.latest.value} else {};
      Leads(s, FrameRun(b), s.(driver := s.driver - {b} + back, latest := Some(b), locked := true,
                               consumer := Converting(b)))
  {
    var back := if s.latest.Some? then {s.latest.value} else {};
    var t := s.(driver := s.driver - {b} + back, latest := Some(b));
    var s1 := s.(driver := s.driver - {b}, drain := WantLock(b));
    var s3 := s1.(locked := true, latest := Some(b), drain := Unlock(s.latest));
    var s5 := s1.(latest := Some(b), drain := Enqueue(s.latest));
    var s7 := t.(locked := true, consumer := Converting(b));
    assert s.latest.None? ==> s1.driver + back == s1.driver;
    LeadsByOne(t.(locked := true, consumer := Looking), CLook, [], s7);
    LeadsByOne(t, CLock, [CLook] + [], s7);
    LeadsByOne(s5, DEnqueue(true), [CLock] + ([CLook] + []), s7);
    LeadsByOne(s3, DUnlock, [DEnqueue(true)] + ([CLock] + ([CLook] + [])), s7);
    LeadsByOne(s1.(locked := true, drain := Swap(b)), DSwap,
               [DUnlock] + ([DEnqueue(true)] + ([CLock] + ([CLook] + []))), s7);
    LeadsByOne(s1, DLock, [DSwap] + ([DUnlock] + ([DEnqueue(true)] + ([CLock] + ([CLook] + [])))), s7);
    LeadsByOne(s, DDequeue(b), [DLock] + ([DSwap] + ([DUnlock] + ([DEnqueue(true)] + ([CLock] + ([CLook] + []))))), s7);
    assert [DDequeue(b)] + ([DLock] + ([DSwap] + ([DUnlock] + ([DEnqueue(true)] + ([CLock] + ([CLook] + []))))))
           == FrameRun(b);
  }

  lemma LeadsByOne(s: State, a: Action, more: seq<Action>, s': State)
    requires Enabled(s, a) && Leads(Step(s, a), more, s')
    ensures Leads(s, [a] + more, s')
  {
    hide Step;
    assert ([a] + more)[1..] == more;
  }
}
