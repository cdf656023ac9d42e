/** The gateway's store-and-forward loop over whole runs: records are built, published live or
    spooled, drained with publish-then-commit, and the power may fail between any two steps
    or inside a disk write. */
module Gateway {
  import opened Arith
  import opened Bytes
  import opened SpoolRing
  import opened SpoolModel

  datatype Fate = Evicted | WipedOut | TornAtPowerLoss | Refused

  // Between a publish and its commit: whether the client took the record.
  datatype Pending = Idle | Sent | Unsent

  /** The history of a run.  `accepted` lists every record handed to the spool in push order;
      the other fields name its elements by their position. */
  datatype Log = Log(
    pending: Pending,
    wire: seq<Rec>,            // everything the client took, in order
    accepted: seq<Rec>,
    queued: seq<nat>,          // the records on the disk, front first
    out: seq<nat>,             // the records taken from the spool by the client, in order
    sent: seq<Rec>,            // what was published for them
    cuts: set<nat>,            // positions in `out` whose commit was cut off by a reboot
    gone: map<nat, Fate>,      // records given up, and why
    live: nat, offline: nat, oversize: nat, refused: nat, built: nat)

  datatype World = World(sp: State, log: Log)

  // `taken` is the client's answer to a publish, which the source does not look at.
  datatype Event =
    | Build(rec: Rec, connected: bool, taken: bool)
    | PeekPublish(taken: bool)
    | CommitFront
    | WipeAll
    | Reboot(initOk: bool)
    | RebootInPush(json: Rec, landed: Landed, left: Cell, initOk: bool)
    | RebootInCommit(blanked: bool, initOk: bool)
    | RebootInWipe(zeroed: nat, initOk: bool)

  // The spool as the next successful boot would see it.
  function Durable(s: State): State {
    if s.ready then s else Boot(s.disk)
  }

  // The loop is one thread: nothing is pushed between a publish and its commit.
  ghost predicate Enabled(w: World, e: Event) {
    match e
    case Build(rec, connected, _) => w.log.pending.Idle? && rec != [] && (w.sp.ready ==> w.sp.tail < U32_MAX)
    case PeekPublish(_) => w.log.pending.Idle? && w.sp.ready
    case CommitFront => !w.log.pending.Idle?
    case WipeAll => true
    case Reboot(_) => true
    case RebootInPush(json, l, c, _) =>
      w.log.pending.Idle? && w.sp.ready && 0 < |json| <= PAYLOAD_MAX && w.sp.tail < U32_MAX
      && TornOutcome(At(w.sp.disk, w.sp.tail), w.sp.tail, json, l, c)
    case RebootInCommit(_, _) => !w.log.pending.Idle? && w.sp.count > 0
    case RebootInWipe(_, _) => w.sp.ready
  }

  // ---------- the history ----------

  function Evict(g: Log): Log {
    if g.queued == [] then g
    else g.(queued := g.queued[1..], gone := g.gone[g.queued[0] := Evicted])
  }

  // One more record is handed to the spool: the oldest may have made room for it, and the new
  // one is on the disk, or was torn by a power loss.
  function TakeIn(g: Log, evict: bool, rec: Rec, arrived: bool): Log {
    var k, o := if evict then Evict(g) else g, |g.accepted|;
    k.(built := k.built + 1, accepted := k.accepted + [rec],
       queued := if arrived then k.queued + [o] else k.queued,
       gone := if arrived then k.gone else k.gone[o := TornAtPowerLoss])
  }

  function Publish(g: Log, rec: Rec, taken: bool): Log {
    if g.queued == [] then g
    else if !taken then g.(pending := Unsent)
    else g.(pending := Sent, wire := g.wire + [rec], sent := g.sent + [rec], out := g.out + [g.queued[0]])
  }

  // The commit happens whatever the client answered.
  function FrontGone(g: Log): Log {
    if g.queued == [] then g.(pending := Idle)
    else
      g.(pending := Idle, queued := g.queued[1..],
         gone := if g.pending.Unsent? then g.gone[g.queued[0] := Refused] else g.gone)
  }

  // Only the records in `kept` survive a wipe.
  function WipeLog(g: Log, kept: seq<nat>): Log {
    g.(queued := kept, gone := g.gone + map o | o in g.queued && o !in kept :: WipedOut)
  }

  // A reboot forgets a pending commit.
  function CutOff(g: Log): Log {
    g.(pending := Idle, cuts := if g.pending.Sent? && g.out != [] then g.cuts + {|g.out| - 1} else g.cuts)
  }

  // Records that never reach the spool.
  function SentLive(g: Log, rec: Rec, taken: bool): Log {
    if taken then g.(built := g.built + 1, wire := g.wire + [rec], live := g.live + 1)
    else g.(built := g.built + 1, refused := g.refused + 1)
  }

  function LostOffline(g: Log): Log {
    g.(built := g.built + 1, offline := g.offline + 1)
  }

  function LostOversize(g: Log): Log {
    g.(built := g.built + 1, oversize := g.oversize + 1)
  }

  // Of the names `os` of the records live in [a, b), those in slots that an erase of the first
  // n headers does not reach.
  function Spared(d: Ring, n: nat, a: nat, b: nat, os: seq<nat>): seq<nat>
    decreases b - a
  {
    if a >= b || os == [] then []
    else if !IntactAt(d, a) then Spared(d, n, a + 1, b, os)
    else (if Residue(a, |d|) < n then [] else [os[0]]) + Spared(d, n, a + 1, b, os[1..])
  }

  // ---------- one step ----------

  // The oldest record leaves a full ring when its slot is taken.
  predicate Evicts(s: State) {
    s.count == |s.disk| && IntactAt(s.disk, s.head) && s.head < s.tail
  }

  function Step(w: World, e: Event): World
    requires e.Build? ==> w.sp.ready ==> w.sp.tail < U32_MAX
  {
    var s, g := w.sp, w.log;
    match e
    case Build(rec, connected, taken) =>
      if connected then World(s, SentLive(g, rec, taken))
      else if !s.ready then World(s, LostOffline(g))
      else if |rec| > PAYLOAD_MAX then World(Push(s, rec, Done).0, LostOversize(g))
      else World(Push(s, rec, Done).0, TakeIn(g, Evicts(s), rec, true))
    case PeekPublish(taken) =>
      var (s', ret, buf) := Peek(s, PAYLOAD_MAX + 1, map[]);
      World(s', if ret.Value? && ret.n > 0 then Publish(g, buf, taken) else g)
    case CommitFront => World(Commit(s, Done).0, FrontGone(g))
    case WipeAll => World(Wipe(s, |s.disk|), if s.ready then WipeLog(g, []) else g)
    case Reboot(ok) => World(PowerUp(s.disk, ok), CutOff(g))
    case RebootInPush(json, l, c, ok) =>
      World(PowerUp(Put(s.disk, s.tail, c), ok),
            TakeIn(g, Evicts(s) && EvictedBack(s, c) == [], json, NewArrived(s, c) != []))
    case RebootInCommit(blanked, ok) =>
      World(PowerUp(if blanked then Put(s.disk, s.head, Blank) else s.disk, ok),
            if blanked then FrontGone(g) else CutOff(g))
    case RebootInWipe(n, ok) =>
      World(PowerUp(Erased(s.disk, n), ok), WipeLog(CutOff(g), Spared(s.disk, n, s.head, s.tail, g.queued)))
  }

  // ---------- the invariant of all runs ----------

  // The disk queue q is what the history says it is.
  ghost predicate QueueMatches(g: Log, q: seq<Rec>) {
    |q| == |g.queued| && forall i :: 0 <= i < |q| ==> g.queued[i] < |g.accepted| && q[i] == g.accepted[g.queued[i]]
  }

  // Publishing follows push order; a record is published twice only across a cut.
  ghost predicate InPushOrder(g: Log) {
    && |g.sent| == |g.out|
    && (forall i :: 0 <= i < |g.out| ==> g.out[i] < |g.accepted| && g.sent[i] == g.accepted[g.out[i]])
    && (forall i :: 0 <= i < |g.out| - 1 ==> g.out[i] < g.out[i + 1] || (g.out[i] == g.out[i + 1] && i in g.cuts))
  }

  // What was published last is not ahead of the queue, and is in it only until its commit.
  ghost predicate OutBeforeQueue(g: Log) {
    g.queued != [] ==>
      && (g.out != [] ==>
            var last := g.out[|g.out| - 1];
            last < g.queued[0] || (last == g.queued[0] && (g.pending.Sent? || |g.out| - 1 in g.cuts)))
      && (g.pending.Sent? ==> g.out != [] && g.out[|g.out| - 1] == g.queued[0])
  }

  // A record was taken by the client, is on the disk, or was given up.
  ghost predicate Traced(g: Log, o: nat) {
    o in g.out || o in g.queued || o in g.gone
  }

  ghost predicate Accounted(g: Log) {
    && (forall o: nat :: o < |g.accepted| ==> Traced(g, o))
    && g.built == g.live + |g.accepted| + g.offline + g.oversize + g.refused
    && |g.wire| == g.live + |g.sent|
  }

  // What was published from the spool is part of what the client took.
  ghost predicate SentOnWire(g: Log) {
    forall i :: 0 <= i < |g.sent| ==> g.sent[i] in g.wire
  }

  // A record given up does not come back.
  ghost predicate GivenUp(g: Log) {
    forall o :: o in g.gone ==> o < |g.accepted| && o !in g.queued
  }

  ghost predicate History(g: Log, q: seq<Rec>) {
    && (forall i :: 0 <= i < |g.accepted| ==> g.accepted[i] != [])
    && Increasing(g.queued, |g.accepted|)
    && QueueMatches(g, q) && InPushOrder(g) && OutBeforeQueue(g) && Accounted(g) && GivenUp(g)
    && SentOnWire(g)
  }

  // Between a publish and its commit the front of the queue stays where it is.
  ghost predicate FrontStays(w: World) {
    !w.log.pending.Idle? ==>
      w.sp.ready && (if w.log.queued == [] then w.sp.count == 0 else w.sp.count > 0 && IntactAt(w.sp.disk, w.sp.head))
  }

  ghost predicate Sound(s: State) {
    Steady(Durable(s)) && ShortRecords(s.disk)
  }

  ghost predicate Inv(w: World) {
    Sound(w.sp) && History(w.log, Queue(Durable(w.sp))) && FrontStays(w)
  }

  // ---------- what each kind of step does to the history ----------

  lemma EvictHistory(g: Log, q: seq<Rec>)
    requires History(g, q) && g.pending.Idle? && g.queued != []
    ensures History(Evict(g), q[1..])
  {
    var g' := Evict(g);
    forall o: nat | Traced(g, o)
      ensures Traced(g', o)
    {
      if o in g.queued {
        var i :| 0 <= i < |g.queued| && g.queued[i] == o;
        assert i > 0 ==> g'.queued[i - 1] == o;
      }
    }
  }

  lemma AppendTraced(g: Log, rec: Rec, arrived: bool)
    requires Accounted(g)
    ensures Accounted(TakeIn(g, false, rec, arrived))
  {
    var g' := TakeIn(g, false, rec, arrived);
    assert arrived ==> g'.queued[|g.queued|] == |g.accepted|;
    assert Traced(g', |g.accepted|);
    assert forall o: nat :: Traced(g, o) ==> Traced(g', o);
  }

  lemma AppendHistory(g: Log, q: seq<Rec>, rec: Rec, arrived: bool)
    requires History(g, q) && g.pending.Idle? && rec != []
    ensures History(TakeIn(g, false, rec, arrived), if arrived then q + [rec] else q)
  {
    hide Accounted;
    AppendTraced(g, rec, arrived);
    var g' := TakeIn(g, false, rec, arrived);
    assert forall i :: 0 <= i < |g.accepted| ==> g'.accepted[i] == g.accepted[i];
  }

  lemma TakeInHistory(g: Log, q: seq<Rec>, evict: bool, rec: Rec, arrived: bool)
    requires History(g, q) && g.pending.Idle? && rec != [] && (evict ==> g.queued != [])
    ensures History(TakeIn(g, evict, rec, arrived), (if evict then q[1..] else q) + if arrived then [rec] else [])
  {
    var kept := if evict then q[1..] else q;
    if evict {
      EvictHistory(g, q);
      assert TakeIn(g, true, rec, arrived) == TakeIn(Evict(g), false, rec, arrived);
    }
    AppendHistory(if evict then Evict(g) else g, kept, rec, arrived);
    assert kept + [] == kept;
  }

  lemma PublishHistory(g: Log, q: seq<Rec>, taken: bool)
    requires History(g, q) && g.pending.Idle? && g.queued != []
    ensures History(Publish(g, q[0], taken), q)
  {
    assert forall o: nat :: Traced(g, o) ==> Traced(Publish(g, q[0], taken), o);
  }

  lemma FrontGoneTraced(g: Log)
    requires Accounted(g) && !g.pending.Idle?
    requires g.pending.Sent? && g.queued != [] ==> g.out != [] && g.out[|g.out| - 1] == g.queued[0]
    ensures Accounted(FrontGone(g))
  {
    forall o: nat | Traced(g, o)
      ensures Traced(FrontGone(g), o)
    {
      if o in g.queued {
        var i :| 0 <= i < |g.queued| && g.queued[i] == o;
        assert i > 0 ==> FrontGone(g).queued[i - 1] == o;
      }
    }
  }

  lemma FrontGoneGivenUp(g: Log)
    requires GivenUp(g) && Increasing(g.queued, |g.accepted|)
    ensures GivenUp(FrontGone(g))
  {
    if g.queued != [] {
      assert forall o :: o in g.queued[1..] ==> o in g.queued;
      assert g.queued[0] !in g.queued[1..];
    }
  }

  lemma FrontGoneHistory(g: Log, q: seq<Rec>)
    requires History(g, q) && !g.pending.Idle?
    ensures History(FrontGone(g), if q == [] then [] else q[1..])
  {
    hide Accounted, GivenUp;
    FrontGoneTraced(g);
    FrontGoneGivenUp(g);
    assert g.queued != [] ==> forall i :: 0 <= i < |g.queued| - 1 ==> FrontGone(g).queued[i] == g.queued[i + 1];
  }

  // The records that survive a wipe are some of the queue's, in the same order.
  ghost predicate Survives(g: Log, q: seq<Rec>, kept: seq<nat>, q': seq<Rec>) {
    && Increasing(kept, |g.accepted|) && QueueMatches(g.(queued := kept), q')
    && (forall i :: 0 <= i < |kept| ==> kept[i] in g.queued)
    && (kept != [] ==> g.queued != [] && g.queued[0] <= kept[0])
  }

  lemma WipeHistory(g: Log, q: seq<Rec>, kept: seq<nat>, q': seq<Rec>)
    requires History(g, q) && Survives(g, q, kept, q') && (kept == [] || g.pending.Idle?)
    ensures History(WipeLog(g, kept), q')
  {
    forall o: nat | Traced(g, o)
      ensures Traced(WipeLog(g, kept), o)
    {
    }
  }

  // What an erase of the first n headers leaves of the records in [a, b), named by `os`.
  lemma {:induction false} SparedSurvive(d: Ring, n: nat, a: nat, b: nat, os: seq<nat>, all: seq<Rec>)
    requires a <= b && Names(os, Live(d, a, b), all)
    ensures Names(Spared(d, n, a, b, os), Live(Erased(d, n), a, b), all)
    ensures forall i :: 0 <= i < |Spared(d, n, a, b, os)| ==> Spared(d, n, a, b, os)[i] in os
    decreases b - a
  {
    hide Residue, IntactAt, One, At, Names;
    if a < b {
      ErasedOne(d, n, a);
      if !IntactAt(d, a) {
        assert One(d, a) == [] == One(Erased(d, n), a);
        assert Live(d, a, b) == Live(d, a + 1, b) && Live(Erased(d, n), a, b) == Live(Erased(d, n), a + 1, b);
        SparedSurvive(d, n, a + 1, b, os, all);
        if os == [] {
          NamesNone(os, all);
        }
      } else {
        NamesRest(os, Live(d, a, b), all);
        assert Live(d, a, b)[1..] == Live(d, a + 1, b);
        SparedSurvive(d, n, a + 1, b, os[1..], all);
        var more, left := Spared(d, n, a + 1, b, os[1..]), Live(Erased(d, n), a + 1, b);
        NamesFront(os, Live(d, a, b)[0], more, left, all);
        assert One(d, a) == [Live(d, a, b)[0]];
        assert [] + more == more && [] + left == left;
      }
    } else {
      assert Live(d, a, b) == [];
      NamesNone(os, all);
    }
  }

  lemma NamesNone(os: seq<nat>, all: seq<Rec>)
    requires Names(os, [], all)
    ensures os == [] && Names([], [], all)
  {
  }

  lemma NamesRest(os: seq<nat>, q: seq<Rec>, all: seq<Rec>)
    requires Names(os, q, all) && q != []
    ensures os != [] && Increasing(os, |all|) && q[0] == all[os[0]] && Names(os[1..], q[1..], all)
  {
  }

  // The first name in front of some of the later ones.
  lemma NamesFront(os: seq<nat>, rec: Rec, more: seq<nat>, q: seq<Rec>, all: seq<Rec>)
    requires os != [] && Increasing(os, |all|) && rec == all[os[0]] && Names(more, q, all)
    requires forall i :: 0 <= i < |more| ==> more[i] in os[1..]
    ensures Names([os[0]] + more, [rec] + q, all)
    ensures forall i :: 0 <= i < |more| ==> more[i] in os
  {
    forall i | 0 <= i < |more|
      ensures os[0] < more[i] && more[i] in os
    {
      var j :| 0 <= j < |os[1..]| && os[1..][j] == more[i];
      assert os[j + 1] == more[i];
    }
  }

  lemma ErasedOne(d: Ring, n: nat, q: nat)
    ensures One(Erased(d, n), q) == if Residue(q, |d|) < n then [] else One(d, q)
    ensures |One(d, q)| == 1 <==> IntactAt(d, q)
  {
  }

  lemma CutOffHistory(g: Log, q: seq<Rec>)
    requires History(g, q)
    ensures History(CutOff(g), q)
  {
    assert forall o: nat :: Traced(g, o) ==> Traced(CutOff(g), o);
  }

  // A history that differs in the counts of records that pass the spool by.
  lemma PassByHistory(g: Log, g': Log, q: seq<Rec>)
    requires History(g, q)
    requires g' == g.(built := g'.built, wire := g'.wire, live := g'.live, offline := g'.offline,
                      oversize := g'.oversize, refused := g'.refused)
    requires g'.built - g.built ==
             (g'.live - g.live) + (g'.offline - g.offline) + (g'.oversize - g.oversize) + (g'.refused - g.refused)
    requires g.wire <= g'.wire && |g'.wire| - |g.wire| == g'.live - g.live
    ensures History(g', q)
  {
    assert forall o: nat :: Traced(g, o) ==> Traced(g', o);
  }

  // ---------- every step keeps the invariant ----------

  lemma BuildKeeps(w: World, rec: Rec, connected: bool, taken: bool)
    requires Inv(w) && Enabled(w, Build(rec, connected, taken))
    ensures Inv(Step(w, Build(rec, connected, taken)))
  {
    hide History, Live, Put;
    var s := w.sp;
    PassByHistory(w.log, SentLive(w.log, rec, taken), Queue(Durable(s)));
    PassByHistory(w.log, LostOffline(w.log), Queue(Durable(s)));
    PassByHistory(w.log, LostOversize(w.log), Queue(Durable(s)));
    if !connected && s.ready && |rec| <= PAYLOAD_MAX {
      PushAppends(s, rec);
      PushStaysShort(s, rec);
      QueueFront(w);
      TakeInHistory(w.log, Queue(s), Evicts(s), rec, true);
    }
  }

  lemma PushStaysShort(s: State, rec: Rec)
    requires ShortRecords(s.disk) && s.ready && s.tail < U32_MAX && |rec| <= PAYLOAD_MAX
    ensures ShortRecords(Push(s, rec, Done).0.disk) && Push(s, rec, Done).0.ready
  {
  }

  // The history's queue is empty exactly when the disk's is.
  lemma QueueFront(w: World)
    requires Inv(w)
    ensures |w.log.queued| == |Queue(Durable(w.sp))|
    ensures w.sp.ready && Evicts(w.sp) ==> w.log.queued != []
    ensures w.log.queued != [] ==> Queue(Durable(w.sp))[0] != []
  {
    if w.log.queued != [] {
      assert w.log.accepted[w.log.queued[0]] != [];
    }
  }

  lemma PeekKeeps(w: World, taken: bool)
    requires Inv(w) && Enabled(w, PeekPublish(taken))
    ensures var w' := Step(w, PeekPublish(taken));
      && Inv(w') && (w'.log.pending.Idle? <==> w.log.queued == [])
      && (w.log.queued != [] ==> (w'.log.pending.Sent? <==> taken))
  {
    hide Peek, Live, History;
    PeekReturnsFront(w.sp, PAYLOAD_MAX + 1, map[]);
    QueueFront(w);
    if w.log.queued != [] {
      PublishHistory(w.log, Queue(w.sp), taken);
    }
  }

  lemma CommitKeeps(w: World)
    requires Inv(w) && Enabled(w, CommitFront)
    ensures Inv(Step(w, CommitFront))
  {
    hide History, Live, Put;
    QueueFront(w);
    FrontGoneHistory(w.log, Queue(w.sp));
    if w.log.queued != [] {
      CommitRemovesFront(w.sp, Done);
      assert Queue(Commit(w.sp, Done).0) == Queue(w.sp)[1..];
      CommitStaysShort(w.sp);
    }
  }

  lemma CommitStaysShort(s: State)
    requires ShortRecords(s.disk)
    ensures ShortRecords(Commit(s, Done).0.disk) && ShortRecords(Put(s.disk, s.head, Blank))
  {
  }

  lemma WipeKeeps(w: World)
    requires Inv(w)
    ensures Inv(Step(w, WipeAll))
  {
    hide History, Live;
    if w.sp.ready {
      WipeEmpties(w.sp, |w.sp.disk|);
      WipeHistory(w.log, Queue(w.sp), [], []);
    }
  }

  // A disk that boots into a steady state is recovered now or by a later boot.
  lemma PowerUpIsDurable(d: Ring, ok: bool)
    requires Steady(Boot(d))
    ensures Durable(PowerUp(d, ok)) == Boot(d) && PowerUp(d, ok).disk == d
  {
  }

  lemma RebootKeeps(w: World, ok: bool)
    requires Inv(w)
    ensures Inv(Step(w, Reboot(ok)))
  {
    hide History, Live, Boot;
    DurableDisk(w.sp);
    RebootKeepsQueue(Durable(w.sp));
    PowerUpIsDurable(w.sp.disk, ok);
    CutOffHistory(w.log, Queue(Durable(w.sp)));
  }

  lemma DurableDisk(s: State)
    ensures Durable(s).disk == s.disk
  {
  }

  lemma TornStaysShort(s: State, e: Event)
    requires e.RebootInPush? && ShortRecords(s.disk) && |e.json| <= PAYLOAD_MAX
    requires TornOutcome(At(s.disk, s.tail), s.tail, e.json, e.landed, e.left)
    ensures ShortRecords(Put(s.disk, s.tail, e.left))
  {
  }

  lemma RebootInPushKeeps(w: World, e: Event)
    requires e.RebootInPush? && Inv(w) && Enabled(w, e)
    ensures Inv(Step(w, e))
  {
    hide History, Live, Boot, PowerUp, Put, At, EvictedBack, NewArrived, ShortRecords, TornOutcome;
    var s, d := w.sp, Put(w.sp.disk, w.sp.tail, e.left);
    var pre, post := EvictedBack(s, e.left), NewArrived(s, e.left);
    var evict := Evicts(s) && pre == [];
    QueueFront(w);
    CrashDuringPush(s, e.json, e.landed, e.left);
    PowerUpIsDurable(d, e.initOk);
    TornStaysShort(s, e);
    assert Queue(Boot(d)) == (if evict then Queue(s)[1..] else Queue(s)) + if post != [] then [e.json] else [];
    TakeInHistory(w.log, Queue(s), evict, e.json, post != []);
  }

  lemma RebootInCommitKeeps(w: World, e: Event)
    requires e.RebootInCommit? && Inv(w) && Enabled(w, e)
    ensures Inv(Step(w, e))
  {
    hide History, Live, Boot, PowerUp, Put;
    QueueFront(w);
    CrashDuringCommit(w.sp, e.blanked);
    CommitStaysShort(w.sp);
    PowerUpIsDurable(if e.blanked then Put(w.sp.disk, w.sp.head, Blank) else w.sp.disk, e.initOk);
    FrontGoneHistory(w.log, Queue(w.sp));
    CutOffHistory(w.log, Queue(w.sp));
  }

  // The queue that is left when a wipe stops after n headers.
  lemma PartlyWiped(g: Log, s: State, n: nat)
    requires Steady(s) && History(g, Queue(s))
    ensures Survives(g, Queue(s), Spared(s.disk, n, s.head, s.tail, g.queued), Live(Erased(s.disk, n), s.head, s.tail))
  {
    hide Live, Spared, Clean, InWindow;
    SparedSurvive(s.disk, n, s.head, s.tail, g.queued, g.accepted);
    var kept := Spared(s.disk, n, s.head, s.tail, g.queued);
    if kept != [] {
      var i :| 0 <= i < |g.queued| && g.queued[i] == kept[0];
    }
  }

  lemma RebootInWipeKeeps(w: World, e: Event)
    requires e.RebootInWipe? && Inv(w) && Enabled(w, e)
    ensures Inv(Step(w, e))
  {
    hide History, Live, Boot, PowerUp, Survives, Spared;
    var s, g := w.sp, w.log;
    CutOffHistory(g, Queue(s));
    RebootAfterWipe(s, e.zeroed);
    PowerUpIsDurable(Erased(s.disk, e.zeroed), e.initOk);
    PartlyWiped(CutOff(g), s, e.zeroed);
    var kept := Spared(s.disk, e.zeroed, s.head, s.tail, g.queued);
    WipeHistory(CutOff(g), Queue(s), kept, Queue(Boot(Erased(s.disk, e.zeroed))));
  }

  lemma StepKeeps(w: World, e: Event)
    requires Inv(w) && Enabled(w, e)
    ensures Inv(Step(w, e))
  {
    match e
    case Build(rec, connected, taken) => BuildKeeps(w, rec, connected, taken);
    case PeekPublish(taken) => PeekKeeps(w, taken);
    case CommitFront => CommitKeeps(w);
    case WipeAll => WipeKeeps(w);
    case Reboot(ok) => RebootKeeps(w, ok);
    case RebootInPush(_, _, _, _) => RebootInPushKeeps(w, e);
    case RebootInCommit(_, _) => RebootInCommitKeeps(w, e);
    case RebootInWipe(_, _) => RebootInWipeKeeps(w, e);
  }

  // ---------- whole runs ----------

  // An empty record could not be told from an empty queue.
  predicate NoEmptyRecord(q: seq<Rec>) {
    forall i :: 0 <= i < |q| ==> q[i] != []
  }

  // Power-up over any steady disk: the records already on it count as accepted earlier.
  function Start(s: State): World {
    var q := Queue(Durable(s));
    World(s, Log(Idle, [], q, seq(|q|, i => i), [], [], {}, map[], 0, 0, 0, 0, |q|))
  }

  // The events lead from w to w', each enabled where it happens.
  ghost predicate Leads(w: World, events: seq<Event>, w': World)
    decreases |events|
  {
    if events == [] then w == w'
    else Enabled(w, events[0]) && Leads(Step(w, events[0]), events[1..], w')
  }

  lemma {:induction false} LeadsOn(a: World, es: seq<Event>, b: World, fs: seq<Event>, c: World)
    requires Leads(a, es, b) && Leads(b, fs, c)
    ensures Leads(a, es + fs, c)
    decreases |es|
  {
    hide Step;
    if es == [] {
      assert es + fs == fs;
    } else {
      LeadsOn(Step(a, es[0]), es[1..], b, fs, c);
      assert (es + fs)[1..] == es[1..] + fs;
    }
  }

  lemma StartHolds(s: State)
    requires Sound(s) && NoEmptyRecord(Queue(Durable(s)))
    ensures Inv(Start(s))
  {
    forall o: nat | o < |Queue(Durable(s))|
      ensures Traced(Start(s).log, o)
    {
      assert Start(s).log.queued[o] == o;
    }
  }

  lemma {:induction false} RunKeeps(w: World, events: seq<Event>, w': World)
    requires Leads(w, events, w') && Inv(w)
    ensures Inv(w')
    decreases |events|
  {
    hide Step, Inv;
    if events != [] {
      StepKeeps(w, events[0]);
      RunKeeps(Step(w, events[0]), events[1..], w');
    }
  }

  /** For any interleaving of builds, connections, drains, wipes, reboots and power losses in
      the middle of a write, with any answers of the client and no disk write errors:
      - every record accepted by the spool was taken by the client, or is queued on the disk, or
        was evicted by a full ring, wiped, torn by a power loss during its own push, or refused
        by the client and committed all the same; a record given up does not come back;
      - every record built was published live, refused live, accepted by the spool, or lost
        because the spool was offline or the record oversize;
      - what was published from the spool is what was accepted, in push order, and a record is
        published twice only if a reboot fell between its publish and its commit;
      - the queue that the disk holds is made of accepted records, in push order. */
  lemma StoreAndForward(s: State, events: seq<Event>, w: World)
    requires Sound(s) && NoEmptyRecord(Queue(Durable(s)))
    requires Leads(Start(s), events, w)
    ensures var g := w.log;
      && (forall o: nat :: o < |g.accepted| ==> Traced(g, o))
      && (forall o :: o in g.gone ==> o < |g.accepted| && o !in g.queued)
      && g.built == g.live + |g.accepted| + g.offline + g.oversize + g.refused
      && |g.wire| == g.live + |g.sent| && |g.sent| == |g.out|
      && (forall i :: 0 <= i < |g.out| ==> g.out[i] < |g.accepted| && g.sent[i] == g.accepted[g.out[i]])
      && (forall i, j :: 0 <= i < j < |g.out| ==> g.out[i] <= g.out[j])
      && (forall i :: 0 <= i < |g.out| - 1 && g.out[i] == g.out[i + 1] ==> i in g.cuts)
      && Increasing(g.queued, |g.accepted|) && QueueMatches(g, Queue(Durable(w.sp)))
  {
    StartHolds(s);
    RunKeeps(Start(s), events, w);
    hide Sound, Queue, Start, Leads;
    var g := w.log;
    forall i, j | 0 <= i < j < |g.out|
      ensures g.out[i] <= g.out[j]
    {
      OutIsSorted(g, i, j);
    }
  }

  lemma {:induction false} OutIsSorted(g: Log, i: nat, j: nat)
    requires InPushOrder(g) && i < j < |g.out|
    ensures g.out[i] <= g.out[j]
    decreases j - i
  {
    if i + 1 < j {
      OutIsSorted(g, i, j - 1);
    }
  }

  // ---------- when nothing is lost ----------

  // The guards at which building a record loses it, or the oldest one queued.
  predicate BuildLoses(s: State, rec: Rec, connected: bool, taken: bool) {
    if connected then !taken else PushLoses(s, rec, Done)
  }

  /** Building a record keeps everything, live or behind the whole queue, if and only if the client
      takes it, or offline the spool is ready, the record fits and the ring has room. */
  lemma BuildLosesNothingIff(w: World, rec: Rec, connected: bool, taken: bool)
    requires Inv(w) && Enabled(w, Build(rec, connected, taken))
    ensures var w' := Step(w, Build(rec, connected, taken));
      var q, q' := Queue(Durable(w.sp)), Queue(Durable(w'.sp));
      ((w'.log.wire == w.log.wire + [rec] && q' == q) || (w'.log.wire == w.log.wire && q' == q + [rec]))
      <==> !BuildLoses(w.sp, rec, connected, taken)
  {
    hide Live, History, Clean, InWindow;
    if w.sp.ready {
      PushLosesNothingIff(w.sp, rec, Done);
    }
  }

  // A record handed to the spool that the client never took and the disk does not hold.
  ghost predicate Absent(g: Log, o: nat) {
    o < |g.accepted| && o !in g.out && o !in g.queued
  }

  /** Some record built was neither taken by the client nor is queued. */
  ghost predicate Missing(g: Log) {
    g.offline > 0 || g.oversize > 0 || g.refused > 0 || exists o: nat :: Absent(g, o)
  }

  // The front of the queue has not been taken by the client before.
  predicate FreshFront(g: Log) {
    g.queued != [] && g.queued[0] !in g.out
  }

  /** The events that lose a record: it is refused live, finds no room on the disk, or leaves the
      queue without the client ever having taken it. */
  ghost predicate Loses(w: World, e: Event) {
    var s, g := w.sp, w.log;
    match e
    case Build(rec, connected, taken) =>
      if connected then !taken else !s.ready || |rec| > PAYLOAD_MAX || (Evicts(s) && FreshFront(g))
    case PeekPublish(_) => false
    case CommitFront => g.pending.Unsent? && FreshFront(g)
    case WipeAll => s.ready && exists o :: o in g.queued && o !in g.out
    case Reboot(_) => false
    case RebootInPush(_, _, c, _) => (Evicts(s) && EvictedBack(s, c) == [] && FreshFront(g)) || NewArrived(s, c) == []
    case RebootInCommit(blanked, _) => blanked && g.pending.Unsent? && FreshFront(g)
    case RebootInWipe(n, _) =>
      exists o :: o in g.queued && o !in g.out && o !in Spared(s.disk, n, s.head, s.tail, g.queued)
  }

  // Records missing before stay so, and the named ones become missing.
  lemma MissingIff(g: Log, g': Log, lost: set<nat>)
    requires g.offline == g'.offline && g.oversize == g'.oversize && g.refused == g'.refused
    requires forall o: nat :: Absent(g', o) <==> Absent(g, o) || o in lost
    ensures Missing(g') <==> Missing(g) || lost != {}
  {
    if o :| o in lost {
      assert Absent(g', o);
    }
    if o: nat :| Absent(g, o) {
      assert Absent(g', o);
    }
  }

  lemma EvictMissing(g: Log)
    requires Increasing(g.queued, |g.accepted|) && g.queued != []
    ensures Missing(Evict(g)) <==> Missing(g) || FreshFront(g)
  {
    QueuedTwice(g);
    assert g.queued == [g.queued[0]] + g.queued[1..];
    MissingIff(g, Evict(g), if FreshFront(g) then {g.queued[0]} else {});
  }

  lemma AppendMissing(g: Log, rec: Rec, arrived: bool)
    requires Increasing(g.queued, |g.accepted|) && forall i :: 0 <= i < |g.out| ==> g.out[i] < |g.accepted|
    ensures Missing(TakeIn(g, false, rec, arrived)) <==> Missing(g) || !arrived
  {
    QueuedTwice(g);
    var lost := if arrived then {} else {|g.accepted|};
    assert |g.accepted| !in g.out && |g.accepted| !in g.queued;
    MissingIff(g, TakeIn(g, false, rec, arrived), lost);
    assert !arrived ==> |g.accepted| in lost;
  }

  lemma TakeInMissing(g: Log, q: seq<Rec>, evict: bool, rec: Rec, arrived: bool)
    requires History(g, q) && (evict ==> g.queued != [])
    ensures Missing(TakeIn(g, evict, rec, arrived)) <==> Missing(g) || (evict && FreshFront(g)) || !arrived
  {
    if evict {
      EvictMissing(g);
      AppendMissing(Evict(g), rec, arrived);
      assert TakeIn(g, true, rec, arrived) == TakeIn(Evict(g), false, rec, arrived);
    } else {
      AppendMissing(g, rec, arrived);
    }
    hide History, Missing, TakeIn;
  }

  // The front is not queued a second time, and is the name of an accepted record.
  lemma QueuedTwice(g: Log)
    requires Increasing(g.queued, |g.accepted|)
    ensures g.queued != [] ==> g.queued[0] < |g.accepted| && g.queued[0] !in g.queued[1..]
    ensures forall o :: o in g.queued ==> o < |g.accepted|
  {
  }

  lemma FrontGoneMissing(g: Log, q: seq<Rec>)
    requires History(g, q) && !g.pending.Idle?
    ensures Missing(FrontGone(g)) <==> Missing(g) || (g.pending.Unsent? && FreshFront(g))
  {
    var g' := FrontGone(g);
    var lost := if g.pending.Unsent? && FreshFront(g) then {g.queued[0]} else {};
    QueuedTwice(g);
    assert g.pending.Sent? && g.queued != [] ==> g.out[|g.out| - 1] == g.queued[0];
    forall o: nat
      ensures Absent(g', o) <==> Absent(g, o) || o in lost
    {
      assert g.queued != [] ==> g.queued == [g.queued[0]] + g.queued[1..];
    }
    MissingIff(g, g', lost);
  }

  lemma WipeMissing(g: Log, q: seq<Rec>, kept: seq<nat>)
    requires History(g, q) && forall i :: 0 <= i < |kept| ==> kept[i] in g.queued
    ensures Missing(WipeLog(g, kept)) <==> Missing(g) || exists o :: o in g.queued && o !in g.out && o !in kept
  {
    QueuedTwice(g);
    var lost := set o | o in g.queued && o !in g.out && o !in kept;
    MissingIff(g, WipeLog(g, kept), lost);
    assert lost != {} ==> exists o :: o in lost;
    assert forall o :: o in lost <==> o in g.queued && o !in g.out && o !in kept;
  }

  // Publishing the front, refusing it, or forgetting a pending commit makes nothing missing.
  lemma PublishMissing(g: Log, rec: Rec, taken: bool)
    ensures Missing(Publish(g, rec, taken)) <==> Missing(g)
  {
    MissingIff(g, Publish(g, rec, taken), {});
  }

  lemma CutOffMissing(g: Log)
    ensures Missing(CutOff(g)) <==> Missing(g)
  {
    MissingIff(g, CutOff(g), {});
  }

  lemma SentLiveMissing(g: Log, rec: Rec, taken: bool)
    ensures Missing(SentLive(g, rec, taken)) <==> Missing(g) || !taken
  {
    if taken {
      MissingIff(g, SentLive(g, rec, taken), {});
    }
  }

  lemma BuildMissing(w: World, rec: Rec, connected: bool, taken: bool)
    requires Inv(w) && Enabled(w, Build(rec, connected, taken))
    ensures Missing(Step(w, Build(rec, connected, taken)).log) <==>
            Missing(w.log) || Loses(w, Build(rec, connected, taken))
  {
    QueueFront(w);
    SentLiveMissing(w.log, rec, taken);
    if !connected && w.sp.ready && |rec| <= PAYLOAD_MAX {
      TakeInMissing(w.log, Queue(w.sp), Evicts(w.sp), rec, true);
    }
    hide Inv, TakeIn, Push, Evicts, SentLive;
  }

  lemma CrashInPushMissing(w: World, e: Event)
    requires Inv(w) && Enabled(w, e) && e.RebootInPush?
    ensures Missing(Step(w, e).log) <==> Missing(w.log) || Loses(w, e)
  {
    QueueFront(w);
    var s, g := w.sp, w.log;
    hide Enabled, Live, Boot, PowerUp, TakeIn, EvictedBack, NewArrived, Evicts, At, Put, Missing, History;
    TakeInMissing(g, Queue(s), Evicts(s) && EvictedBack(s, e.left) == [], e.json, NewArrived(s, e.left) != []);
  }

  lemma CrashInWipeMissing(w: World, e: Event)
    requires Inv(w) && Enabled(w, e) && e.RebootInWipe?
    ensures Missing(Step(w, e).log) <==> Missing(w.log) || Loses(w, e)
  {
    var s, g := w.sp, w.log;
    var kept := Spared(s.disk, e.zeroed, s.head, s.tail, g.queued);
    CutOffMissing(g);
    CutOffHistory(g, Queue(s));
    PartlyWiped(g, s, e.zeroed);
    hide Inv, Live, Boot, PowerUp, WipeLog, Spared, Erased, Missing, History;
    WipeMissing(CutOff(g), Queue(s), kept);
  }

  /** An event makes a record missing if and only if its guard says so, and a record once missing
      stays so. */
  lemma StepMissingIff(w: World, e: Event)
    requires Inv(w) && Enabled(w, e)
    ensures Missing(Step(w, e).log) <==> Missing(w.log) || Loses(w, e)
  {
    var s, g := w.sp, w.log;
    hide History, Live, Peek, Commit, Wipe, Boot, PowerUp, FrontGone, WipeLog, Publish, CutOff, Missing;
    match e
    case Build(rec, connected, taken) => BuildMissing(w, rec, connected, taken);
    case PeekPublish(taken) => PublishMissing(g, Peek(s, PAYLOAD_MAX + 1, map[]).2, taken);
    case CommitFront => FrontGoneMissing(g, Queue(Durable(s)));
    case WipeAll => WipeMissing(g, Queue(Durable(s)), []);
    case Reboot(_) => CutOffMissing(g);
    case RebootInPush(_, _, _, _) => CrashInPushMissing(w, e);
    case RebootInCommit(_, _) => CutOffMissing(g); FrontGoneMissing(g, Queue(Durable(s)));
    case RebootInWipe(_, _) => CrashInWipeMissing(w, e);
  }

  // Some event of the run loses a record.
  ghost predicate RunLoses(w: World, events: seq<Event>)
    decreases |events|
  {
    events != [] && Enabled(w, events[0]) && (Loses(w, events[0]) || RunLoses(Step(w, events[0]), events[1..]))
  }

  /** At the end of a run some record is neither with the client nor on the disk if and only if
      one was missing at the start, or some event of the run fails its guard. */
  lemma {:induction false} NothingMissingIff(w: World, events: seq<Event>, w': World)
    requires Inv(w) && Leads(w, events, w')
    ensures Missing(w'.log) <==> Missing(w.log) || RunLoses(w, events)
    decreases |events|
  {
    hide Inv, Step, Loses, Missing;
    if events != [] {
      StepKeeps(w, events[0]);
      StepMissingIff(w, events[0]);
      NothingMissingIff(Step(w, events[0]), events[1..], w');
    }
  }

  /** What it means that nothing is missing: every record built live was taken, and every record
      handed to the spool is among what the client took or what the disk holds. */
  lemma NothingMissingMeans(w: World)
    requires Inv(w) && !Missing(w.log)
    ensures w.log.built == w.log.live + |w.log.accepted|
    ensures forall o :: 0 <= o < |w.log.accepted| ==>
      w.log.accepted[o] in w.log.wire || w.log.accepted[o] in Queue(Durable(w.sp))
  {
    var g, q := w.log, Queue(Durable(w.sp));
    forall o | 0 <= o < |g.accepted|
      ensures g.accepted[o] in g.wire || g.accepted[o] in q
    {
      assert !Absent(g, o);
      if o in g.out {
        var i :| 0 <= i < |g.out| && g.out[i] == o;
        assert g.sent[i] in g.wire;
      } else {
        var i :| 0 <= i < |g.queued| && g.queued[i] == o;
        assert q[i] == g.accepted[o];
      }
    }
  }

  /** A wipe of a record that the client took before a reboot cut its commit off loses nothing,
      although it gives the queued copy up. */
  lemma WipeOfSentLosesNothing(w: World)
    requires Inv(w) && w.sp.ready && w.log.pending.Idle? && |w.log.queued| == 1 && !Missing(w.log)
    ensures var w1 := Step(w, PeekPublish(true)); var w2 := Step(w1, Reboot(true)); var w3 := Step(w2, WipeAll);
      !Missing(w3.log) && w3.log.queued == []
  {
    var w1 := Step(w, PeekPublish(true));
    var w2 := Step(w1, Reboot(true));
    PeekKeeps(w, true);
    RebootKeeps(w1, true);
    OnlySentQueued(w1);
    hide Inv, Missing, Peek, Boot, Wipe;
    StepMissingIff(w, PeekPublish(true));
    StepMissingIff(w1, Reboot(true));
    StepMissingIff(w2, WipeAll);
  }

  lemma OnlySentQueued(w: World)
    requires Inv(w) && w.log.pending.Sent? && |w.log.queued| == 1
    ensures forall o :: o in w.log.queued ==> o in w.log.out
  {
    assert w.log.out[|w.log.out| - 1] == w.log.queued[0];
  }
}
