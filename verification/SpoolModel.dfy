/** The spool as a value: its operations as functions of the ring of slots on the disk and
    the counters in RAM.

    A driver call succeeds, or fails and leaves some cell in the slot it was writing.
    Sequence numbers are not allowed to wrap: a push requires tail < U32_MAX. */
module SpoolModel {
  import opened Arith
  import opened Bytes
  import opened SpoolRing

  datatype Stats = Stats(count: nat, capacity: nat, pushed: nat, drained: nat, drops: nat)
  datatype State = State(disk: Ring, head: nat, tail: nat, count: nat, stats: Stats, ready: bool)

  datatype Write = Done | Failed(err: int, left: Cell)
  datatype Ret = Value(n: nat) | NoDevice | MsgTooLong | Io(err: int)

  function Queue(s: State): seq<Rec> {
    Live(s.disk, s.head, s.tail)
  }

  // ---------- operations ----------

  // A full ring gives up its oldest record.
  function MakeRoom(s: State): State {
    if s.count == |s.disk| then
      s.(head := s.head + 1, count := s.count - 1, stats := s.stats.(drops := s.stats.drops + 1))
    else s
  }

  function Push(s: State, json: Rec, w: Write): (State, Ret)
    requires s.tail < U32_MAX
  {
    if !s.ready then (s, NoDevice)
    else if |json| > PAYLOAD_MAX then (s.(stats := s.stats.(drops := s.stats.drops + 1)), MsgTooLong)
    else
      var r := MakeRoom(s);
      match w
      case Done =>
        (r.(disk := Put(s.disk, s.tail, Cell(s.tail, Good(json))), tail := r.tail + 1, count := r.count + 1,
         stats := r.stats.(pushed := r.stats.pushed + 1, count := r.count + 1)), Value(0))
      case Failed(e, c) => (r.(disk := Put(s.disk, s.tail, c)), Io(e))
  }

  function SkipOne(s: State): State
    requires s.count > 0
  {
    s.(head := s.head + 1, count := s.count - 1,
       stats := s.stats.(drops := s.stats.drops + 1, count := s.count - 1))
  }

  const EIO := -5

  predicate Deliverable(d: Ring, q: nat, bufSize: nat) {
    IntactAt(d, q) && |At(d, q).body.rec| < bufSize
  }

  // `bad` holds the slots that the driver fails to read, with its error codes.
  function Peek(s: State, bufSize: nat, bad: map<nat, int>): (State, Ret, Rec)
    decreases s.count
  {
    if !s.ready then (s, NoDevice, [])
    else if s.count == 0 then (s, Value(0), [])
    else if Residue(s.head, |s.disk|) in bad then (s, Io(bad[Residue(s.head, |s.disk|)]), [])
    else if !Deliverable(s.disk, s.head, bufSize) then Peek(SkipOne(s), bufSize, bad)
    else (s, Value(|At(s.disk, s.head).body.rec|), At(s.disk, s.head).body.rec)
  }

  // On failure `left` is the cell that the head's slot was left with.
  function Commit(s: State, w: Write): (State, Ret) {
    if !s.ready then (s, NoDevice)
    else if s.count == 0 then (s, Value(0))
    else
      (s.(disk := Put(s.disk, s.head, if w.Done? then Blank else w.left), head := s.head + 1, count := s.count - 1,
          stats := s.stats.(drained := s.stats.drained + 1, count := s.count - 1)),
       match w case Done => Value(0) case Failed(e, _) => Io(e))
  }

  // The ring with its first n headers zeroed.
  function Erased(d: Ring, n: nat): Ring {
    seq(|d|, i requires 0 <= i < |d| => if i < n then Blank else d[i])
  }

  // A wipe that zeroed n headers; the counters are reset even if it stopped early.
  function Wipe(s: State, n: nat): State {
    if !s.ready then s
    else s.(disk := Erased(s.disk, n), head := 0, tail := 0, count := 0, stats := s.stats.(count := 0))
  }

  // RAM after a reboot: the scan's window, and counters that start from zero.
  function Boot(d: Ring): State {
    var count := (BootTail(d) - BootHead(d)) % (U32_MAX + 1);
    State(d, BootHead(d), BootTail(d), count, Stats(count, |d|, 0, 0, 0), true)
  }

  // RAM after power-up when the disk may fail to answer the boot scan.
  function PowerUp(d: Ring, initOk: bool): State {
    if initOk then Boot(d) else State(d, 0, 0, 0, Stats(0, 0, 0, 0, 0), false)
  }

  // The boot state in the terms of the scan loop.
  lemma BootFromScan(d: Ring)
    ensures var s, n, b := ScanCells(d), |d|, Boot(d);
      && b.disk == d && b.ready
      && (s.valid == 0 ==> b.head == b.tail == b.count == 0)
      && (s.valid != 0 ==>
            && b.tail == (s.maxSeq + 1) % (U32_MAX + 1)
            && b.head == (var floor := if s.maxSeq >= n - 1 then s.maxSeq - (n - 1) else 0;
                          if s.minSeq > floor then s.minSeq else floor)
            && b.count == (b.tail - b.head) % (U32_MAX + 1))
  {
    hide ScanCells;
  }

  // ---------- invariants ----------

  // What every operation keeps, failed writes included.
  ghost predicate Valid(s: State) {
    s.ready ==> s.count == s.tail - s.head && InWindow(s.disk, s.head, s.tail)
  }

  ghost predicate Running(s: State) {
    s.ready && Valid(s)
  }

  // What every operation keeps as long as writes succeed.
  ghost predicate Steady(s: State) {
    Running(s) && Clean(s.disk, s.head, s.tail)
  }

  // ---------- refinement of a bounded FIFO that drops its oldest element ----------

  ghost predicate Full(s: State) {
    s.count == |s.disk|
  }

  // The queue after the oldest slot has been given up to make room.
  function Room(s: State): seq<Rec> {
    if s.count == |s.disk| && IntactAt(s.disk, s.head) && s.head < s.tail then Queue(s)[1..] else Queue(s)
  }

  lemma RoomIsKept(s: State)
    requires Running(s)
    ensures Room(s) == Live(s.disk, Kept(s.disk, s.head, s.tail), s.tail)
    ensures Full(s) ==> One(s.disk, s.head) + Room(s) == Queue(s)
    ensures !Full(s) ==> [] + Room(s) == Queue(s)
  {
  }

  /** A push that fits appends its record to the queue, after making room if the ring is full. */
  lemma PushAppends(s: State, json: Rec)
    requires Running(s) && s.tail < U32_MAX && |json| <= PAYLOAD_MAX
    ensures var (s', ret) := Push(s, json, Done);
      && Running(s') && (Steady(s) ==> Steady(s'))
      && ret == Value(0) && Queue(s') == Room(s) + [json]
  {
    hide Residue;
    RoomIsKept(s);
    AppendCell(s.disk, Kept(s.disk, s.head, s.tail), s.tail, json);
  }

  // A push whose write fails has made room and queued nothing.
  lemma FailedPushOnlyMakesRoom(s: State, json: Rec, w: Write)
    requires Running(s) && s.tail < U32_MAX && |json| <= PAYLOAD_MAX && w.Failed?
    ensures Queue(Push(s, json, w).0) == Room(s) && Push(s, json, w).1 == Io(w.err)
  {
    hide Residue;
    RoomIsKept(s);
    LiveElsewhere(s.disk, s.tail, w.left, Kept(s.disk, s.head, s.tail), s.tail);
  }

  // The guards of the branches that lose a record: the new one, or the oldest one queued.
  predicate PushLoses(s: State, json: Rec, w: Write) {
    !s.ready || |json| > PAYLOAD_MAX || w.Failed? || (s.count == |s.disk| && IntactAt(s.disk, s.head))
  }

  /** A push keeps every queued record and adds its own if and only if the spool is ready, the
      record fits, the write succeeds, and the ring has a slot that holds no record. */
  lemma PushLosesNothingIff(s: State, json: Rec, w: Write)
    requires Valid(s) && s.tail < U32_MAX
    ensures Queue(Push(s, json, w).0) == Queue(s) + [json] <==> !PushLoses(s, json, w)
  {
    if s.ready && |json| <= PAYLOAD_MAX {
      assert |Room(s)| <= |Queue(s)| && (|Room(s)| == |Queue(s)| ==> Room(s) == Queue(s));
      if w.Done? {
        PushAppends(s, json);
      } else {
        FailedPushOnlyMakesRoom(s, json, w);
      }
    }
  }

  // A ring of one slot that holds one record.
  function FullRing(rec: Rec): (s: State) {
    State([Cell(0, Good(rec))], 0, 1, 1, Stats(1, 1, 1, 0, 0), true)
  }

  lemma FullRingIsSteady(rec: Rec)
    ensures Steady(FullRing(rec)) && IntactAt(FullRing(rec).disk, 0) && One(FullRing(rec).disk, 0) == [rec]
  {
    assert Residue(0, 1) == 0;
  }

  /** An input on which a record is lost: a push onto a full ring. */
  lemma FullRingLosesItsOldest(old1: Rec, new1: Rec)
    requires |new1| <= PAYLOAD_MAX
    ensures var s := FullRing(old1);
      Steady(s) && Queue(s) == [old1] && Queue(Push(s, new1, Done).0) == [new1]
  {
    var s := FullRing(old1);
    FullRingIsSteady(old1);
    LiveOne(s.disk, 0);
    hide Live, Residue, Put, InWindow, Clean;
    PushAppends(s, new1);
    assert [old1][1..] + [new1] == [new1];
  }

  // ---------- pushes in a row ----------

  // The spool after these records have been pushed, in order.
  function PushAll(s: State, recs: seq<Rec>): (s': State)
    requires s.tail + |recs| <= U32_MAX
    ensures s'.tail <= s.tail + |recs|
  {
    if recs == [] then s else Push(PushAll(s, recs[..|recs| - 1]), recs[|recs| - 1], Done).0
  }

  lemma {:induction false} PushOnBoth(s: State, a: seq<Rec>, b: seq<Rec>)
    requires s.tail + |a| + |b| <= U32_MAX
    ensures PushAll(s, a + b) == PushAll(PushAll(s, a), b)
  {
    hide Push;
    if b == [] {
      assert a + b == a;
    } else {
      assert (a + b)[..|a + b| - 1] == a + b[..|b| - 1];
      PushOnBoth(s, a, b[..|b| - 1]);
    }
  }

  // The records that a slot can hold.
  function Fitting(recs: seq<Rec>): (fit: seq<Rec>)
    ensures |fit| <= |recs|
  {
    if recs == [] then []
    else
      var before, last := Fitting(recs[..|recs| - 1]), recs[|recs| - 1];
      if |last| <= PAYLOAD_MAX then before + [last] else before
  }

  // A push that fits and succeeds, in the numbers of the slots.
  lemma PushMoves(s: State, json: Rec, a: nat, m: nat)
    requires Running(s) && s.tail < U32_MAX && |json| <= PAYLOAD_MAX && m <= s.tail < m + |s.disk|
    ensures var r := Push(s, json, Done).0;
      && Running(r) && |r.disk| == |s.disk| && r.tail == s.tail + 1
      && r.head == (if s.tail - s.head == |s.disk| then s.head + 1 else s.head)
      && Live(r.disk, m, r.tail) == Live(s.disk, m, s.tail) + [json]
      && (r.head <= a <= m ==> Live(r.disk, a, m) == Live(s.disk, a, m))
  {
    hide Residue;
    PushAppends(s, json);
    var c, d := Cell(s.tail, Good(json)), Put(s.disk, s.tail, Cell(s.tail, Good(json)));
    LiveElsewhere(s.disk, s.tail, c, m, s.tail);
    LiveSplit(d, m, s.tail, s.tail + 1);
    LiveOne(d, s.tail);
    if Push(s, json, Done).0.head <= a <= m {
      LiveElsewhere(s.disk, s.tail, c, a, m);
    }
  }

  lemma PushTooLong(s: State, json: Rec)
    requires Running(s) && s.tail < U32_MAX && |json| > PAYLOAD_MAX
    ensures var r := Push(s, json, Done).0;
      Running(r) && r.disk == s.disk && r.head == s.head && r.tail == s.tail
  {
  }

  lemma RunningWindow(s: State)
    requires Running(s)
    ensures s.ready && s.head <= s.tail && s.count == s.tail - s.head <= |s.disk|
  {
  }

  // A window of n slots with n records has one in its first slot.
  lemma LiveDropsFirst(d: Ring, m: nat, b: nat)
    requires m < b && |Live(d, m, b)| == b - m
    ensures Live(d, m + 1, b) == Live(d, m, b)[1..]
  {
    LiveBound(d, m + 1, b);
  }

  lemma {:induction false} LiveBound(d: Ring, a: nat, b: nat)
    requires a <= b
    ensures |Live(d, a, b)| <= b - a
    decreases b - a
  {
    if a < b {
      LiveBound(d, a + 1, b);
    }
  }

  // The last k slots hold the last k of these records, as many as fit the ring.
  ghost predicate HoldsLast(s: State, fit: seq<Rec>, k: nat) {
    && k == (if |fit| <= |s.disk| then |fit| else |s.disk|) && k <= s.tail
    && Live(s.disk, s.tail - k, s.tail) == fit[|fit| - k..]
  }

  lemma HoldsNext(s: State, fit: seq<Rec>, k: nat, last: Rec)
    requires Running(s) && s.tail < U32_MAX && |last| <= PAYLOAD_MAX && HoldsLast(s, fit, k)
    ensures HoldsLast(Push(s, last, Done).0, fit + [last], if k < |s.disk| then k + 1 else k)
  {
    hide Running, Live, Push;
    var all, n := fit + [last], |s.disk|;
    if k < n {
      PushMoves(s, last, s.tail - k, s.tail - k);
      assert fit[0..] + [last] == all[0..];
    } else {
      LiveDropsFirst(s.disk, s.tail - n, s.tail);
      PushMoves(s, last, s.tail - n + 1, s.tail - n + 1);
      assert fit[|fit| - n..][1..] + [last] == all[|all| - n..];
    }
  }

  // Pushes in a row, in the numbers of the slots: slot a is an old one that they did not take.
  lemma {:induction false} PushAllMoves(s: State, recs: seq<Rec>, a: nat)
    requires Running(s) && s.tail + |recs| <= U32_MAX
    ensures var r, t := PushAll(s, recs), s.tail + |Fitting(recs)|;
      && Running(r) && |r.disk| == |s.disk| && r.tail == t
      && r.head == (if s.head + |s.disk| < t then t - |s.disk| else s.head)
      && (r.head <= a <= s.tail ==> Live(r.disk, a, s.tail) == Live(s.disk, a, s.tail))
  {
    RunningWindow(s);
    if recs != [] {
      var before, k, last := PushAll(s, recs[..|recs| - 1]), |Fitting(recs[..|recs| - 1])|, recs[|recs| - 1];
      PushAllMoves(s, recs[..|recs| - 1], a);
      hide Running, Live, Push;
      if |last| <= PAYLOAD_MAX {
        PushMoves(before, last, a, if k < |s.disk| then s.tail else before.tail);
      } else {
        PushTooLong(before, last);
      }
    }
  }

  // The newest records are in the newest slots.
  lemma {:induction false} PushAllHolds(s: State, recs: seq<Rec>, k: nat)
    requires Running(s) && s.tail + |recs| <= U32_MAX
    requires k == if |Fitting(recs)| <= |s.disk| then |Fitting(recs)| else |s.disk|
    ensures HoldsLast(PushAll(s, recs), Fitting(recs), k)
  {
    if recs == [] {
      LiveNone(s.disk, s.tail, s.tail);
    } else {
      var before, fit, last := PushAll(s, recs[..|recs| - 1]), Fitting(recs[..|recs| - 1]), recs[|recs| - 1];
      var k' := if |fit| <= |s.disk| then |fit| else |s.disk|;
      PushAllHolds(s, recs[..|recs| - 1], k');
      PushAllMoves(s, recs[..|recs| - 1], s.tail);
      hide Running, Live, Push, HoldsLast;
      if |last| <= PAYLOAD_MAX {
        HoldsNext(before, fit, k', last);
      } else {
        PushTooLong(before, last);
        HoldsStill(before, Push(before, last, Done).0, fit, k');
      }
    }
  }

  lemma HoldsStill(s: State, r: State, fit: seq<Rec>, k: nat)
    requires HoldsLast(s, fit, k) && r.disk == s.disk && r.tail == s.tail
    ensures HoldsLast(r, fit, k)
  {
  }

  lemma QueueIs(s: State)
    ensures Queue(s) == Live(s.disk, s.head, s.tail)
  {
  }

  lemma HeldAre(s: State, fit: seq<Rec>, k: nat)
    requires HoldsLast(s, fit, k)
    ensures k <= |fit| && k <= s.tail && Live(s.disk, s.tail - k, s.tail) == fit[|fit| - k..]
  {
  }

  // Fewer records that fit than the ring has slots.
  lemma PushAllFewer(s: State, recs: seq<Rec>, keep: nat)
    requires Running(s) && s.tail + |recs| <= U32_MAX && |Fitting(recs)| < |s.disk|
    requires keep == var t := s.tail + |Fitting(recs)|; if s.head + |s.disk| < t then t - |s.disk| else s.head
    ensures Queue(PushAll(s, recs)) == Live(s.disk, keep, s.tail) + Fitting(recs)
  {
    hide *;
    var r, fit := PushAll(s, recs), Fitting(recs);
    RunningWindow(s);
    PushAllMoves(s, recs, keep);
    PushAllHolds(s, recs, |fit|);
    assert r.head == keep <= s.tail && r.tail - |fit| == s.tail;
    HeldAre(r, fit, |fit|);
    assert fit[|fit| - |fit|..] == fit;
    calc {
      Queue(r);
      { QueueIs(r); }
      Live(r.disk, keep, r.tail);
      { LiveSplit(r.disk, keep, s.tail, r.tail); }
      Live(r.disk, keep, s.tail) + Live(r.disk, s.tail, r.tail);
      Live(s.disk, keep, s.tail) + fit;
    }
  }

  // At least as many.
  lemma PushAllMore(s: State, recs: seq<Rec>)
    requires Running(s) && s.tail + |recs| <= U32_MAX && |Fitting(recs)| >= |s.disk|
    ensures Queue(PushAll(s, recs)) == Fitting(recs)[|Fitting(recs)| - |s.disk|..]
  {
    hide *;
    var r := PushAll(s, recs);
    RunningWindow(s);
    PushAllMoves(s, recs, s.tail);
    PushAllHolds(s, recs, |s.disk|);
    HeldAre(r, Fitting(recs), |s.disk|);
    assert r.head == r.tail - |s.disk|;
    QueueIs(r);
  }

  /** What is queued after any number of pushes in a row: the newest records that fit a slot, as
      many as the ring has slots, and before them the records of the old slots that are left. */
  lemma PushAllQueues(s: State, recs: seq<Rec>)
    requires Running(s) && s.tail + |recs| <= U32_MAX
    ensures var fit, n := Fitting(recs), |s.disk|;
      if |fit| >= n then Queue(PushAll(s, recs)) == fit[|fit| - n..]
      else
        var keep := if s.head + n < s.tail + |fit| then s.tail + |fit| - n else s.head;
        Queue(PushAll(s, recs)) == Live(s.disk, keep, s.tail) + fit
  {
    hide *;
    if |Fitting(recs)| >= |s.disk| {
      PushAllMore(s, recs);
    } else {
      var t := s.tail + |Fitting(recs)|;
      PushAllFewer(s, recs, if s.head + |s.disk| < t then t - |s.disk| else s.head);
    }
  }

  // In particular the last record is the last one queued, if it fits.
  lemma LastPushIsQueued(s: State, recs: seq<Rec>)
    requires Running(s) && s.tail + |recs| <= U32_MAX && recs != [] && |recs[|recs| - 1]| <= PAYLOAD_MAX
    ensures var q := Queue(PushAll(s, recs)); q != [] && q[|q| - 1] == recs[|recs| - 1]
  {
    hide Running, Queue, Push;
    PushAllMoves(s, recs[..|recs| - 1], 0);
    PushAppends(PushAll(s, recs[..|recs| - 1]), recs[|recs| - 1]);
  }

  // A spool that is not ready is not changed by any pushes.
  lemma {:induction false} PushAllNotReady(s: State, recs: seq<Rec>)
    requires !s.ready && s.tail + |recs| <= U32_MAX
    ensures PushAll(s, recs) == s
  {
    if recs != [] {
      PushAllNotReady(s, recs[..|recs| - 1]);
    }
  }

  lemma SkipKeepsQueue(s: State)
    requires Running(s) && s.count > 0 && !IntactAt(s.disk, s.head)
    ensures Running(SkipOne(s)) && Queue(SkipOne(s)) == Queue(s) && (Steady(s) ==> Steady(SkipOne(s)))
  {
  }

  ghost predicate ShortRecords(d: Ring) {
    forall i :: 0 <= i < |d| && d[i].Cell? && d[i].body.Good? ==> |d[i].body.rec| <= PAYLOAD_MAX
  }

  /** Peek returns the front of the queue and changes nothing but the count of bad slots
      skipped; it reports an empty queue exactly when the queue is empty or its front is the
      empty record.  A read error changes nothing either. */
  lemma {:induction false} PeekReturnsFront(s: State, bufSize: nat, bad: map<nat, int>)
    requires Running(s) && ShortRecords(s.disk) && bufSize > PAYLOAD_MAX
    ensures var (s', ret, out) := Peek(s, bufSize, bad);
      && Running(s') && (Steady(s) ==> Steady(s'))
      && s'.disk == s.disk && s'.tail == s.tail && Queue(s') == Queue(s)
      && (ret.Value? || (ret.Io? && bad != map[]))
      && (ret.Value? && Queue(s) == [] ==> ret == Value(0) && out == [] && s'.count == 0)
      && (ret.Value? && Queue(s) != [] ==> out == Queue(s)[0] && ret == Value(|out|) && s'.count > 0
                                           && IntactAt(s'.disk, s'.head))
      && (ret.Value? ==> (ret.n == 0 <==> Queue(s) == [] || Queue(s)[0] == []))
      && s'.stats.drops - s.stats.drops == s.count - s'.count == s'.head - s.head
    decreases s.count
  {
    if s.count > 0 && Residue(s.head, |s.disk|) !in bad && !Deliverable(s.disk, s.head, bufSize) {
      SkipKeepsQueue(s);
      PeekReturnsFront(SkipOne(s), bufSize, bad);
    }
  }

  // The state after one peek for each set of read errors: what the main loop does turn after turn
  // as long as a peek finds nothing to publish.
  function PeekEach(s: State, bads: seq<map<nat, int>>): State {
    if bads == [] then s else Peek(PeekEach(s, bads[..|bads| - 1]), PAYLOAD_MAX + 1, bads[|bads| - 1]).0
  }

  /** An empty record at the front blocks the drain for good: however often the loop peeks, no peek
      has anything to publish, and the queue behind it stays as it is. */
  lemma {:induction false} EmptyRecordBlocks(s: State, bads: seq<map<nat, int>>, bad: map<nat, int>)
    requires Running(s) && ShortRecords(s.disk) && Queue(s) != [] && Queue(s)[0] == []
    ensures var s' := PeekEach(s, bads);
      && Running(s') && s'.disk == s.disk && Queue(s') == Queue(s)
      && (var ret := Peek(s', PAYLOAD_MAX + 1, bad).1; ret == Value(0) || (ret.Io? && bad != map[]))
  {
    hide Peek, Queue;
    if bads != [] {
      EmptyRecordBlocks(s, bads[..|bads| - 1], bads[|bads| - 1]);
      PeekReturnsFront(PeekEach(s, bads[..|bads| - 1]), PAYLOAD_MAX + 1, bads[|bads| - 1]);
    }
    PeekReturnsFront(PeekEach(s, bads), PAYLOAD_MAX + 1, bad);
  }

  // A failed commit leaves its one sector as it was, or zeroed.
  ghost predicate PlausibleCommit(s: State, w: Write) {
    w.Failed? ==> w.left == At(s.disk, s.head) || w.left == Blank
  }

  /** A commit after a peek removes exactly the record that was peeked, and blanks its slot if
      the write succeeds. */
  lemma CommitRemovesFront(s: State, w: Write)
    requires Running(s) && s.count > 0 && IntactAt(s.disk, s.head) && PlausibleCommit(s, w)
    ensures var (s', ret) := Commit(s, w);
      && Running(s') && Queue(s) == [Queue(s)[0]] + Queue(s')
      && (w.Done? ==> ret == Value(0) && At(s'.disk, s.head) == Blank && (Steady(s) ==> Steady(s')))
      && (w.Failed? ==> ret == Io(w.err))
  {
    BlankFront(s.disk, s.head, s.tail);
    if w.Failed? && w.left != Blank {
      assert Put(s.disk, s.head, w.left) == s.disk;
    }
  }

  /** One turn of the drain loop, whatever the driver answers: publish the front, if there is
      one to be had, and commit it. */
  lemma DrainTurn(s: State, bad: map<nat, int>, w: Write)
    requires Running(s) && ShortRecords(s.disk)
    requires PlausibleCommit(Peek(s, PAYLOAD_MAX + 1, bad).0, w)
    ensures var (s1, ret, out) := Peek(s, PAYLOAD_MAX + 1, bad); var s2 := Commit(s1, w).0;
      && Running(s1) && Queue(s1) == Queue(s) && (Steady(s) ==> Steady(s1))
      && (ret.Value? || (ret.Io? && bad != map[]))
      && (ret.Value? ==> (ret.n > 0 <==> Queue(s) != [] && Queue(s)[0] != []))
      && (ret.Value? && ret.n > 0 ==>
            && Running(s2) && out == Queue(s)[0] && Queue(s2) == Queue(s)[1..]
            && (w.Done? && Steady(s) ==> Steady(s2)))
  {
    PeekReturnsFront(s, PAYLOAD_MAX + 1, bad);
    var (s1, ret, _) := Peek(s, PAYLOAD_MAX + 1, bad);
    hide Peek, Commit, Live;
    if ret.Value? && Queue(s) != [] {
      CommitRemovesFront(s1, w);
    }
  }

  /** A wipe empties the queue in RAM; the disk agrees exactly when no header is left beyond
      the point where the wipe stopped. */
  lemma WipeEmpties(s: State, n: nat)
    requires s.ready
    ensures Queue(Wipe(s, n)) == []
    ensures Steady(Wipe(s, n)) <==> forall i :: n <= i < |s.disk| ==> s.disk[i].Blank?
  {
    var d' := Erased(s.disk, n);
    if Steady(Wipe(s, n)) {
      assert forall i :: n <= i < |s.disk| ==> d'[i] == s.disk[i];
    }
  }

  /** After a wipe that stopped at slot n, a reboot brings back the queued records whose slots
      it did not reach, in order, and nothing else. */
  lemma RebootAfterWipe(s: State, n: nat)
    requires Steady(s)
    ensures var b := Boot(Wipe(s, n).disk);
      Steady(b) && Queue(b) == Live(Erased(s.disk, n), s.head, s.tail) && (n >= |s.disk| ==> Queue(b) == [])
  {
    var d' := Erased(s.disk, n);
    assert Located(d', s.tail) && Clean(d', s.head, s.tail);
    BootIsSteady(d', s.tail);
    RebootKeepsTheQueue(d', s.head, s.tail);
    if n >= |s.disk| {
      LiveNone(d', s.head, s.tail);
    }
  }

  // ---------- a ring without bad slots is the textbook queue ----------

  ghost predicate AllGood(s: State) {
    forall q :: s.head <= q < s.tail ==> IntactAt(s.disk, q)
  }

  lemma {:induction false} LiveAllGood(d: Ring, a: nat, b: nat)
    requires a <= b <= U32_MAX && forall q :: a <= q < b ==> IntactAt(d, q)
    ensures |Live(d, a, b)| == b - a
    ensures forall q :: a <= q < b ==> At(d, q) == Cell(q, Good(Live(d, a, b)[q - a]))
    decreases b - a
  {
    hide Residue;
    if a < b {
      LiveAllGood(d, a + 1, b);
      assert IntactAt(d, a);
      var rest := Live(d, a + 1, b);
      assert Live(d, a, b) == [At(d, a).body.rec] + rest;
      forall q | a <= q < b
        ensures At(d, q) == Cell(q, Good(Live(d, a, b)[q - a]))
      {
        assert q > a ==> Live(d, a, b)[q - a] == rest[q - (a + 1)];
      }
    }
  }

  /** With every live slot intact, record k of the queue is the one in the slot of sequence
      number head + k, distinct live numbers use distinct slots, and push is the bounded FIFO
      that sacrifices its oldest element when it is full. */
  lemma RingIsBoundedFifo(s: State, json: Rec)
    requires Running(s) && AllGood(s) && s.tail < U32_MAX && |json| <= PAYLOAD_MAX
    ensures |Queue(s)| == s.count
    ensures forall q :: s.head <= q < s.tail ==> At(s.disk, q) == Cell(q, Good(Queue(s)[q - s.head]))
    ensures forall q, r :: s.head <= q < r < s.tail ==> q % |s.disk| != r % |s.disk|
    ensures var s' := Push(s, json, Done).0;
      AllGood(s') && Queue(s') == (if |Queue(s)| == |s.disk| then Queue(s)[1..] else Queue(s)) + [json]
  {
    LiveAllGood(s.disk, s.head, s.tail);
    forall q, r | s.head <= q < r < s.tail
      ensures q % |s.disk| != r % |s.disk|
    {
      ResiduesDiffer(q, r, |s.disk|);
      ResidueIsRemainder(q, |s.disk|);
      ResidueIsRemainder(r, |s.disk|);
    }
    PushAppends(s, json);
    PushKeepsAllGood(s, json);
  }

  lemma PushKeepsAllGood(s: State, json: Rec)
    requires Running(s) && AllGood(s) && s.tail < U32_MAX && |json| <= PAYLOAD_MAX
    ensures AllGood(Push(s, json, Done).0)
  {
    var s' := Push(s, json, Done).0;
    forall q | s'.head <= q < s'.tail
      ensures IntactAt(s'.disk, q)
    {
      if q < s.tail {
        ResiduesDiffer(q, s.tail, |s.disk|);
        assert IntactAt(s.disk, q);
      }
    }
  }

  // ---------- power loss ----------

  lemma BootIsSteady(d: Ring, tail: nat)
    requires tail <= U32_MAX && Located(d, tail)
    ensures Steady(Boot(d)) && Queue(Boot(d)) == Recovered(d)
  {
    RecoveryScan(d, tail);
  }

  /** A reboot between operations loses nothing and invents nothing. */
  lemma RebootKeepsQueue(s: State)
    requires Steady(s)
    ensures Steady(Boot(s.disk)) && Queue(Boot(s.disk)) == Queue(s)
  {
    BootIsSteady(s.disk, s.tail);
    RebootKeepsTheQueue(s.disk, s.head, s.tail);
  }

  lemma RebootIsSteady(s: State)
    requires Running(s)
    ensures Steady(Boot(s.disk))
  {
    BootIsSteady(s.disk, s.tail);
  }

  /** Even after failed writes, a reboot recovers the live queue whole and in order; besides
      it there can only be stale records before it and the record of a failed push after it. */
  lemma RebootAfterWriteErrors(s: State)
    requires Running(s)
    ensures Queue(Boot(s.disk)) == Live(s.disk, LapStart(s.disk, s.tail), s.head) + Queue(s) + One(s.disk, s.tail)
  {
    BootIsSteady(s.disk, s.tail);
    RecoveryScan(s.disk, s.tail);
    assert LapStart(s.disk, s.tail) <= s.head;
    LiveInThree(s.disk, LapStart(s.disk, s.tail), s.head, s.tail);
  }

  // The parts of a recovered queue that depend on how far an interrupted push got.
  function EvictedBack(s: State, c: Cell): seq<Rec> {
    if s.tail < |s.disk| then [] else One(Put(s.disk, s.tail, c), s.tail - |s.disk|)
  }

  function NewArrived(s: State, c: Cell): seq<Rec> {
    One(Put(s.disk, s.tail, c), s.tail)
  }

  /** Power loss during a push in any state that a run with failing writes can reach: the
      queue with room made for the new record is recovered whole and in order.  Besides it
      there can only be records that a failed commit left behind, before it, and one record
      in the slot being written. */
  lemma CrashDuringPushAfterErrors(s: State, c: Cell)
    requires Running(s) && s.tail < U32_MAX
    requires OldOrNewHeader(At(s.disk, s.tail), s.tail, c)
    ensures var b, d, stale := Boot(Put(s.disk, s.tail, c)), s.disk, PastWrite(s.disk, s.tail);
      && Steady(b)
      && Queue(b) == EvictedBack(s, c) + Live(d, stale, Kept(d, s.head, s.tail)) + Room(s) + NewArrived(s, c)
  {
    var d, keep := s.disk, Kept(s.disk, s.head, s.tail);
    hide Live, One, Boot, Recovered, Put, At, Located, Room;
    LocatedMidWrite(d, s.tail, c);
    BootIsSteady(Put(d, s.tail, c), s.tail);
    RecoveredMidWrite(d, s.tail, c);
    LiveSplit(d, PastWrite(d, s.tail), keep, s.tail);
    RoomIsKept(s);
    hide EvictedBack, NewArrived;
    assert EvictedBack(s, c) + (Live(d, PastWrite(d, s.tail), keep) + Room(s))
           == EvictedBack(s, c) + Live(d, PastWrite(d, s.tail), keep) + Room(s);
  }

  /** Power loss during a push when no write has failed before, whatever subset of its three
      sectors landed: the reboot recovers the queue that makes room for the new record,
      followed by that record or not, and preceded by the evicted record only if its header
      was not yet overwritten. */
  lemma CrashDuringPush(s: State, json: Rec, l: Landed, c: Cell)
    requires Steady(s) && s.tail < U32_MAX
    requires TornOutcome(At(s.disk, s.tail), s.tail, json, l, c)
    ensures var b, pre, post := Boot(Put(s.disk, s.tail, c)), EvictedBack(s, c), NewArrived(s, c);
      && Steady(b) && Queue(b) == pre + Room(s) + post
      && (pre == [] || (!l.l0 && Full(s) && pre + Room(s) == Queue(s)))
      && (post == [] || (l.l0 && post == [json]))
      && (l == ALL ==> pre == [] && post == [json])
      && (l == NONE ==> post == [] && pre + Room(s) == Queue(s))
  {
    hide Live, One, Boot, Recovered, Put, At, Located, Clean, Room;
    CrashDuringPushAfterErrors(s, c);
    NothingStale(s.disk, s.head, s.tail);
    assert EvictedBack(s, c) + [] == EvictedBack(s, c);
    OneLapBelow(s, json, l, c);
    RoomIsKept(s);
  }

  // What the slot of the next record shows under its old and under its new number.
  lemma OneLapBelow(s: State, json: Rec, l: Landed, c: Cell)
    requires Steady(s) && TornOutcome(At(s.disk, s.tail), s.tail, json, l, c)
    ensures var pre, post := EvictedBack(s, c), NewArrived(s, c);
      && (l.l0 ==> pre == [] && (post == [] || post == [json]))
      && (!l.l0 ==> post == [] && (pre == [] || (Full(s) && pre == One(s.disk, s.head))))
      && (l == ALL ==> post == [json])
      && (l == NONE && Full(s) ==> pre == One(s.disk, s.head))
      && (!Full(s) ==> pre == [])
  {
    if s.tail >= |s.disk| {
      assert Residue(s.tail, |s.disk|) == Residue(s.tail - |s.disk|, |s.disk|);
    }
  }

  lemma CommitRuns(s: State)
    requires Running(s) && s.count > 0
    ensures var s1 := Commit(s, Done).0;
      && Running(s1) && s1.disk == Put(s.disk, s.head, Blank) && s1.head == s.head + 1 && s1.tail == s.tail
      && Queue(s1) == Live(s.disk, s.head + 1, s.tail)
  {
    BlankFront(s.disk, s.head, s.tail);
  }

  /** Power loss during a commit in any state that a run with failing writes can reach: the
      queue is recovered whole and in order, with or without the record being committed.
      Besides it there can only be what failed writes left behind, before and after it. */
  lemma CrashDuringCommitAfterErrors(s: State, landed: bool)
    requires Running(s) && s.count > 0
    ensures var d := if landed then Put(s.disk, s.head, Blank) else s.disk;
      var s1 := if landed then Commit(s, Done).0 else s;
      && Steady(Boot(d))
      && Queue(Boot(d)) == Live(d, LapStart(d, s.tail), s1.head) + Queue(s1) + One(d, s.tail)
      && Queue(s1) == Live(s.disk, if landed then s.head + 1 else s.head, s.tail)
  {
    var s1 := if landed then Commit(s, Done).0 else s;
    CommitRuns(s);
    hide Live, LapStart, Boot, Put, One, Commit, Running;
    RebootIsSteady(s1);
    RebootAfterWriteErrors(s1);
  }

  /** Power loss during a commit when no write has failed before: the record being committed is
      gone or reappears, nothing else. */
  lemma CrashDuringCommit(s: State, landed: bool)
    requires Steady(s) && s.count > 0 && IntactAt(s.disk, s.head)
    ensures var b := Boot(if landed then Put(s.disk, s.head, Blank) else s.disk);
      Steady(b) && Queue(b) == if landed then Queue(s)[1..] else Queue(s)
  {
    if landed {
      CommitRemovesFront(s, Done);
      RebootKeepsQueue(Commit(s, Done).0);
    } else {
      RebootKeepsQueue(s);
    }
  }

  /** A reboot does not re-send a committed record if and only if the commit's write went through,
      or failed after its one sector had landed. */
  lemma CommitForgetsIff(s: State, w: Write)
    requires Steady(s) && s.count > 0 && IntactAt(s.disk, s.head) && PlausibleCommit(s, w)
    ensures var s' := Commit(s, w).0;
      Queue(Boot(s'.disk)) == Queue(s') <==> w.Done? || w.left == Blank
  {
    CommitRemovesFront(s, w);
    if w.Done? || w.left == Blank {
      CommitRemovesFront(s, Done);
      RebootKeepsQueue(Commit(s, Done).0);
    } else {
      assert Put(s.disk, s.head, w.left) == s.disk;
      RebootKeepsQueue(s);
    }
  }

  // ---------- whole runs, with failing writes ----------

  // A wipe zeroes n headers before it ends or a write of it fails.
  datatype Op =
    | OpPush(json: Rec, w: Write)
    | OpPeek(bufSize: nat, bad: map<nat, int>)
    | OpCommit(w: Write)
    | OpWipe(n: nat)

  // What the header sector guarantees of a failed write.
  ghost predicate PlausibleOp(s: State, op: Op) {
    match op
    case OpPush(_, Failed(_, c)) => OldOrNewHeader(At(s.disk, s.tail), s.tail, c)
    case OpCommit(w) => PlausibleCommit(s, w)
    case _ => true
  }

  function Apply(s: State, op: Op): State
    requires s.tail < U32_MAX
  {
    match op
    case OpPush(json, w) => Push(s, json, w).0
    case OpPeek(n, bad) => Peek(s, n, bad).0
    case OpCommit(w) => Commit(s, w).0
    case OpWipe(n) => Wipe(s, n)
  }

  // A run: the states between the operations.
  ghost predicate IsRun(states: seq<State>, ops: seq<Op>) {
    && |states| == |ops| + 1
    && forall i :: 0 <= i < |ops| ==> states[i].tail < U32_MAX && states[i + 1] == Apply(states[i], ops[i])
  }

  function OversizeRejects(s: State, op: Op): nat {
    if s.ready && op.OpPush? && |op.json| > PAYLOAD_MAX then 1 else 0
  }

  function WipedBy(s: State, op: Op): nat {
    if s.ready && op.OpWipe? then s.count else 0
  }

  function TotalRejects(states: seq<State>, ops: seq<Op>): nat
    requires |states| >= |ops|
  {
    if ops == [] then 0 else TotalRejects(states, ops[..|ops| - 1]) + OversizeRejects(states[|ops| - 1], ops[|ops| - 1])
  }

  function TotalWiped(states: seq<State>, ops: seq<Op>): nat
    requires |states| >= |ops|
  {
    if ops == [] then 0 else TotalWiped(states, ops[..|ops| - 1]) + WipedBy(states[|ops| - 1], ops[|ops| - 1])
  }

  lemma {:induction false} PeekBalance(s: State, n: nat, bad: map<nat, int>)
    ensures var s' := Peek(s, n, bad).0;
      && s'.ready == s.ready && s'.tail == s.tail && s'.disk == s.disk
      && s'.count <= s.count && s'.head - s.head == s.count - s'.count == s'.stats.drops - s.stats.drops
      && s'.stats.pushed == s.stats.pushed && s'.stats.drained == s.stats.drained
    decreases s.count
  {
    if s.ready && s.count > 0 && Residue(s.head, |s.disk|) !in bad && !Deliverable(s.disk, s.head, n) {
      PeekBalance(SkipOne(s), n, bad);
    }
  }

  /** One operation, in any state and whatever the driver returns: the counters move by exactly
      the records that came and went. */
  lemma ApplyBalances(s: State, op: Op)
    requires s.tail < U32_MAX
    ensures var s' := Apply(s, op);
      s.count + (s'.stats.pushed - s.stats.pushed) + OversizeRejects(s, op)
      == (s'.stats.drained - s.stats.drained) + (s'.stats.drops - s.stats.drops) + s'.count + WipedBy(s, op)
  {
    if op.OpPeek? {
      PeekBalance(s, op.bufSize, op.bad);
    }
  }

  // No header is left beyond the point where a wipe stopped, unless it is number 0 in its place.
  ghost predicate WipeReachesAll(d: Ring, n: nat) {
    forall i :: n <= i < |d| && d[i].Cell? ==> i == 0 && d[i].seqno == 0
  }

  /** One operation, whatever the driver returns, keeps the ring invariant; a wipe keeps it if
      and only if it reached every header. */
  lemma ApplyKeeps(s: State, op: Op)
    requires Valid(s) && s.tail < U32_MAX && PlausibleOp(s, op)
    ensures Valid(Apply(s, op)) <==> (op.OpWipe? && s.ready ==> WipeReachesAll(s.disk, op.n))
  {
    hide Residue, Live;
    match op
    case OpPush(json, w) =>
      if s.ready && |json| <= PAYLOAD_MAX {
        if w.Done? {
          AppendCell(s.disk, Kept(s.disk, s.head, s.tail), s.tail, json);
        } else {
          LocatedMidWrite(s.disk, s.tail, w.left);
        }
      }
    case OpPeek(n, bad) => PeekBalance(s, n, bad);
    case OpCommit(w) =>
      if s.ready && s.count > 0 {
        BlankFront(s.disk, s.head, s.tail);
        if w.Failed? && w.left != Blank {
          assert Put(s.disk, s.head, w.left) == s.disk;
        }
      }
    case OpWipe(n) => WipeKeepsIff(s, n);
  }

  lemma WipeKeepsIff(s: State, n: nat)
    requires Valid(s)
    ensures Valid(Wipe(s, n)) <==> (s.ready ==> WipeReachesAll(s.disk, n))
  {
    if s.ready {
      var d, d' := s.disk, Erased(s.disk, n);
      assert Residue(0, |d|) == 0;
      assert forall i :: n <= i < |d| ==> d'[i] == d[i];
    }
  }

  /** Conservation over any run from any state, failed writes and stopped wipes included:
      initial + pushed + oversize rejects = drained + drops + queued + wiped. */
  lemma {:induction false} Conservation(states: seq<State>, ops: seq<Op>)
    requires IsRun(states, ops)
    ensures var s, s' := states[0], states[|ops|];
      s.count + (s'.stats.pushed - s.stats.pushed) + TotalRejects(states, ops)
      == (s'.stats.drained - s.stats.drained) + (s'.stats.drops - s.stats.drops) + s'.count + TotalWiped(states, ops)
    decreases |ops|
  {
    if ops != [] {
      var k := |ops| - 1;
      assert IsRun(states[..k + 1], ops[..k]) by {
        assert forall i :: 0 <= i < k ==> ops[..k][i] == ops[i];
      }
      Conservation(states[..k + 1], ops[..k]);
      TotalsOfPrefix(states, ops[..k], k + 1);
      ApplyBalances(states[k], ops[k]);
    }
  }

  /** The ring invariant holds throughout any run whose failed writes are plausible and whose
      wipes reach every header. */
  lemma {:induction false} RunKeepsRing(states: seq<State>, ops: seq<Op>, n: nat)
    requires IsRun(states, ops) && n <= |ops| && Valid(states[0])
    requires forall i :: 0 <= i < |ops| ==> PlausibleOp(states[i], ops[i])
    requires forall i :: 0 <= i < |ops| && ops[i].OpWipe? ==> WipeReachesAll(states[i].disk, ops[i].n)
    ensures Valid(states[n])
  {
    hide Valid, PlausibleOp, WipeReachesAll, Apply;
    if n > 0 {
      RunKeepsRing(states, ops, n - 1);
      ApplyKeeps(states[n - 1], ops[n - 1]);
    }
  }

  lemma {:induction false} TotalsOfPrefix(states: seq<State>, ops: seq<Op>, m: nat)
    requires |ops| <= m <= |states|
    ensures TotalRejects(states[..m], ops) == TotalRejects(states, ops)
    ensures TotalWiped(states[..m], ops) == TotalWiped(states, ops)
    decreases |ops|
  {
    if ops != [] {
      TotalsOfPrefix(states, ops[..|ops| - 1], m);
    }
  }

  // The one operation after which stats.count is no longer the record count.
  predicate FailedPushOnFullRing(s: State, op: Op) {
    s.ready && op.OpPush? && |op.json| <= PAYLOAD_MAX && op.w.Failed? && s.count == |s.disk|
  }

  lemma {:induction false} PeekCounts(s: State, n: nat, bad: map<nat, int>)
    requires s.stats.count == s.count
    ensures Peek(s, n, bad).0.stats.count == Peek(s, n, bad).0.count
    decreases s.count
  {
    if s.ready && s.count > 0 && Residue(s.head, |s.disk|) !in bad && !Deliverable(s.disk, s.head, n) {
      PeekCounts(SkipOne(s), n, bad);
    }
  }

  /** stats.count follows the record count through every operation but one: on a full ring
      whose write fails the record count drops by one while stats.count does not. */
  lemma StatsCountGoesStale(s: State, op: Op)
    requires s.stats.count == s.count && s.tail < U32_MAX
    ensures Apply(s, op).stats.count == Apply(s, op).count <==> !FailedPushOnFullRing(s, op)
  {
    match op
    case OpPush(json, w) =>
    case OpPeek(n, bad) => PeekCounts(s, n, bad);
    case OpCommit(w) =>
    case OpWipe(n) =>
  }
}
