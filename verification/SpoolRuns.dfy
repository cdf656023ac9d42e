/** Whole runs of the spool with failing writes, reboots and power losses inside a write mixed in any
    order: whatever is queued or recovered was pushed in the run, in push order. */
module SpoolRuns {
  import opened Arith
  import opened Bytes
  import opened SpoolRing
  import opened SpoolModel

  datatype Event =
    | Do(op: Op)
    | Reboot(initOk: bool)
    | CrashInPush(json: Rec, left: Cell, initOk: bool)
    | CrashInCommit(blanked: bool, initOk: bool)
    | CrashInWipe(zeroed: nat, initOk: bool)

  // `pushed` lists the records whose write was begun; `tags` says for every slot which of them it
  // holds, if it holds a record.
  datatype World = World(s: State, pushed: seq<Rec>, tags: seq<nat>)

  // A write of `json` shows the old cell, the new record, or no record.
  ghost predicate PlausibleWrite(s: State, json: Rec, c: Cell)
    requires s.tail <= U32_MAX
  {
    && OldOrNewHeader(At(s.disk, s.tail), s.tail, c)
    && (c.Cell? && c.body.Good? ==> c == At(s.disk, s.tail) || c == Cell(s.tail, Good(json)))
  }

  ghost predicate Enabled(w: World, e: Event) {
    var s := w.s;
    match e
    case Do(op) =>
      && s.tail < U32_MAX && PlausibleOp(s, op)
      && (op.OpPush? && op.w.Failed? ==> PlausibleWrite(s, op.json, op.w.left))
      && (op.OpWipe? && s.ready ==> WipeReachesAll(s.disk, op.n))
    case Reboot(_) => true
    case CrashInPush(json, c, _) => s.ready && s.tail < U32_MAX && |json| <= PAYLOAD_MAX && PlausibleWrite(s, json, c)
    case CrashInCommit(_, _) => s.ready && s.count > 0
    case CrashInWipe(_, _) => s.ready
  }

  // The slot of the next number has been written, leaving cell c.
  function Written(w: World, s': State, json: Rec, c: Cell): World
    requires |w.tags| == |w.s.disk| && w.s.tail <= U32_MAX
  {
    var k := Residue(w.s.tail, |w.s.disk|);
    World(s', w.pushed + [json], if c == Cell(w.s.tail, Good(json)) then w.tags[k := |w.pushed|] else w.tags)
  }

  function Step(w: World, e: Event): World
    requires Enabled(w, e) && |w.tags| == |w.s.disk|
  {
    var s := w.s;
    match e
    case Do(op) =>
      var s' := Apply(s, op);
      if op.OpPush? && s.ready && |op.json| <= PAYLOAD_MAX then
        Written(w, s', op.json, if op.w.Done? then Cell(s.tail, Good(op.json)) else op.w.left)
      else w.(s := s')
    case Reboot(ok) => w.(s := PowerUp(s.disk, ok))
    case CrashInPush(json, c, ok) => Written(w, PowerUp(Put(s.disk, s.tail, c), ok), json, c)
    case CrashInCommit(blanked, ok) => w.(s := PowerUp(if blanked then Put(s.disk, s.head, Blank) else s.disk, ok))
    case CrashInWipe(n, ok) => w.(s := PowerUp(Erased(s.disk, n), ok))
  }

  // ---------- the invariant ----------

  // A disk that boots into a sound state.
  ghost predicate Bootable(d: Ring) {
    exists t: nat :: t <= U32_MAX && Located(d, t)
  }

  predicate Holds(d: Ring, i: nat)
    requires i < |d|
  {
    d[i].Cell? && d[i].body.Good?
  }

  /** Every record on the disk is the one its tag names, and higher sequence numbers belong to later
      pushes. */
  ghost predicate Tagged(d: Ring, tags: seq<nat>, pushed: seq<Rec>) {
    && |tags| == |d|
    && (forall i :: 0 <= i < |d| && Holds(d, i) ==>
          tags[i] < |pushed| && pushed[tags[i]] == d[i].body.rec)
    && (forall i, j :: 0 <= i < |d| && 0 <= j < |d| && Holds(d, i) && Holds(d, j) && d[i].seqno < d[j].seqno ==>
          tags[i] < tags[j])
  }

  ghost predicate Inv(w: World) {
    Valid(w.s) && Bootable(w.s.disk) && Tagged(w.s.disk, w.tags, w.pushed)
  }

  // Removing cells keeps all that is known of a disk.
  ghost predicate Thinned(d: Ring, d': Ring) {
    |d'| == |d| && forall i :: 0 <= i < |d| ==> d'[i] == d[i] || d'[i] == Blank
  }

  lemma ThinnedKeeps(d: Ring, d': Ring, tags: seq<nat>, pushed: seq<Rec>)
    requires Thinned(d, d') && Bootable(d) && Tagged(d, tags, pushed)
    ensures Bootable(d') && Tagged(d', tags, pushed)
  {
    var t: nat :| t <= U32_MAX && Located(d, t);
    assert Located(d', t);
  }

  lemma RunningIsBootable(s: State)
    requires Running(s)
    ensures Bootable(s.disk)
  {
    assert Located(s.disk, s.tail);
  }

  lemma WrittenKeeps(w: World, s': State, json: Rec, c: Cell)
    requires Running(w.s) && Tagged(w.s.disk, w.tags, w.pushed) && w.s.tail < U32_MAX && PlausibleWrite(w.s, json, c)
    requires s'.disk == Put(w.s.disk, w.s.tail, c)
    ensures var w' := Written(w, s', json, c); Bootable(s'.disk) && Tagged(s'.disk, w'.tags, w'.pushed)
  {
    var d, t := w.s.disk, w.s.tail;
    LocatedMidWrite(d, t, c);
    assert Located(Put(d, t, c), t);
    assert forall i :: 0 <= i < |w.pushed| ==> (w.pushed + [json])[i] == w.pushed[i];
    assert forall i :: 0 <= i < |d| && d[i].Cell? && i != Residue(t, |d|) ==> d[i].seqno < t;
  }

  lemma PowerUpIsValid(d: Ring, ok: bool)
    requires Bootable(d)
    ensures Valid(PowerUp(d, ok)) && PowerUp(d, ok).disk == d && (ok ==> Steady(PowerUp(d, ok)))
  {
    var t: nat :| t <= U32_MAX && Located(d, t);
    BootIsSteady(d, t);
  }

  lemma DoKeeps(w: World, op: Op)
    requires Inv(w) && Enabled(w, Do(op))
    ensures Inv(Step(w, Do(op)))
  {
    var s, s' := w.s, Apply(w.s, op);
    ApplyKeeps(s, op);
    match op
    case OpPush(json, wr) =>
      if s.ready && |json| <= PAYLOAD_MAX {
        hide Valid, Tagged, Bootable;
        assert Running(s);
        PushWrites(s, json, wr);
        WrittenKeeps(w, s', json, if wr.Done? then Cell(s.tail, Good(json)) else wr.left);
      }
    case OpPeek(n, bad) => PeekBalance(s, n, bad);
    case OpCommit(wr) => assert Thinned(s.disk, s'.disk); ThinnedKeeps(s.disk, s'.disk, w.tags, w.pushed);
    case OpWipe(n) => assert Thinned(s.disk, s'.disk); ThinnedKeeps(s.disk, s'.disk, w.tags, w.pushed);
  }

  lemma PushWrites(s: State, json: Rec, wr: Write)
    requires s.ready && s.tail < U32_MAX && |json| <= PAYLOAD_MAX
    ensures Push(s, json, wr).0.disk == Put(s.disk, s.tail, if wr.Done? then Cell(s.tail, Good(json)) else wr.left)
    ensures wr.Done? ==> PlausibleWrite(s, json, Cell(s.tail, Good(json)))
  {
  }

  lemma StepKeeps(w: World, e: Event)
    requires Inv(w) && Enabled(w, e)
    ensures Inv(Step(w, e))
  {
    var s := w.s;
    match e
    case Do(op) => DoKeeps(w, op);
    case Reboot(ok) => PowerUpIsValid(s.disk, ok);
    case CrashInPush(json, c, ok) =>
      var d := Put(s.disk, s.tail, c);
      assert PowerUp(d, ok).disk == d;
      WrittenKeeps(w, PowerUp(d, ok), json, c);
      PowerUpIsValid(d, ok);
      hide Tagged, Valid, Bootable;
    case CrashInCommit(blanked, ok) =>
      var d := if blanked then Put(s.disk, s.head, Blank) else s.disk;
      assert Thinned(s.disk, d);
      ThinnedKeeps(s.disk, d, w.tags, w.pushed);
      PowerUpIsValid(d, ok);
    case CrashInWipe(n, ok) =>
      assert Thinned(s.disk, Erased(s.disk, n));
      ThinnedKeeps(s.disk, Erased(s.disk, n), w.tags, w.pushed);
      PowerUpIsValid(Erased(s.disk, n), ok);
  }

  // ---------- what is queued was pushed, in order ----------

  // Which pushes the records live in [a, b) come from.
  function TagsOf(d: Ring, tags: seq<nat>, a: nat, b: nat): seq<nat>
    requires |tags| == |d|
    decreases b - a
  {
    if a >= b then []
    else (if IntactAt(d, a) then [tags[Residue(a, |d|)]] else []) + TagsOf(d, tags, a + 1, b)
  }

  // The pushes named come after those of all lower sequence numbers.
  ghost predicate LaterThan(d: Ring, tags: seq<nat>, a: nat, os: seq<nat>)
    requires |tags| == |d|
  {
    forall i, k :: 0 <= i < |d| && Holds(d, i) && d[i].seqno < a && 0 <= k < |os| ==> tags[i] < os[k]
  }

  lemma {:induction false} LiveInPushOrder(d: Ring, tags: seq<nat>, pushed: seq<Rec>, a: nat, b: nat)
    requires Tagged(d, tags, pushed)
    ensures var os := TagsOf(d, tags, a, b); Names(os, Live(d, a, b), pushed) && LaterThan(d, tags, a, os)
    decreases b - a
  {
    if a < b {
      hide Names, LaterThan, Tagged, IntactAt, Residue, One;
      LiveInPushOrder(d, tags, pushed, a + 1, b);
      var rest := TagsOf(d, tags, a + 1, b);
      if IntactAt(d, a) {
        OneEarlier(d, tags, pushed, a, rest, Live(d, a + 1, b));
      } else {
        NoneEarlier(d, tags, a, rest);
        assert One(d, a) == [] && [] + Live(d, a + 1, b) == Live(d, a + 1, b) && [] + rest == rest;
      }
    } else {
      NoneNamed(d, tags, pushed, a);
    }
  }

  lemma NoneNamed(d: Ring, tags: seq<nat>, pushed: seq<Rec>, a: nat)
    requires |tags| == |d|
    ensures Names([], [], pushed) && LaterThan(d, tags, a, [])
  {
  }

  lemma NoneEarlier(d: Ring, tags: seq<nat>, a: nat, rest: seq<nat>)
    requires |tags| == |d| && LaterThan(d, tags, a + 1, rest)
    ensures LaterThan(d, tags, a, rest)
  {
  }

  lemma OneEarlier(d: Ring, tags: seq<nat>, pushed: seq<Rec>, a: nat, rest: seq<nat>, q: seq<Rec>)
    requires Tagged(d, tags, pushed) && IntactAt(d, a) && Names(rest, q, pushed) && LaterThan(d, tags, a + 1, rest)
    ensures var os := [tags[Residue(a, |d|)]] + rest; Names(os, One(d, a) + q, pushed) && LaterThan(d, tags, a, os)
  {
    var k := Residue(a, |d|);
    assert Holds(d, k) && d[k].seqno == a;
    assert forall j :: 0 <= j < |rest| ==> tags[k] < rest[j];
    assert One(d, a) == [pushed[tags[k]]];
  }

  ghost predicate Leads(w: World, events: seq<Event>, w': World)
    decreases |events|
  {
    if events == [] then w == w'
    else |w.tags| == |w.s.disk| && Enabled(w, events[0]) && Leads(Step(w, events[0]), events[1..], w')
  }

  lemma {:induction false} RunKeeps(w: World, events: seq<Event>, w': World)
    requires Inv(w) && Leads(w, events, w')
    ensures Inv(w')
    decreases |events|
  {
    hide Valid, Bootable, Tagged, Enabled, Step;
    if events != [] {
      StepKeeps(w, events[0]);
      RunKeeps(Step(w, events[0]), events[1..], w');
    }
  }

  /** In every run that starts from a sound disk, with failing writes, power losses inside a push, a
      commit or a wipe, and reboots in any order: the queue at any moment, in particular what a
      reboot has just recovered, is made of records pushed in the run or on the disk before it, each
      push at most once, in push order; and the ring invariant holds. */
  lemma QueueIsPushed(w: World, events: seq<Event>, w': World)
    requires Inv(w) && Leads(w, events, w')
    ensures Valid(w'.s) && |w'.tags| == |w'.s.disk|
    ensures Names(TagsOf(w'.s.disk, w'.tags, w'.s.head, w'.s.tail), Queue(w'.s), w'.pushed)
  {
    RunKeeps(w, events, w');
    LiveInPushOrder(w'.s.disk, w'.tags, w'.pushed, w'.s.head, w'.s.tail);
  }

  // An empty disk is such a start.
  lemma BlankStart(n: nat, ok: bool)
    requires n > 0
    ensures var d: Ring := seq(n, _ => Blank); Inv(World(PowerUp(d, ok), [], seq(n, _ => 0)))
  {
    var d: Ring := seq(n, _ => Blank);
    assert Located(d, 0);
    PowerUpIsValid(d, ok);
  }
}
