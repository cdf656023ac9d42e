/** The gateway's main loop over the real spool and the real links: connect, ingest the children,
    publish the gateway's own record when it is due, drain a few spooled records.  A ghost copy
    of the world records that every turn of the loop is a run of the events in module Gateway. */
module GatewayLoop {
  import opened Bytes
  import opened SpoolRing
  import S = Spool
  import M = SpoolModel
  import L = LineFormat
  import U = UartIngest
  import opened Gateway

  const DRAIN_PER_TICK := 4
  const RECONNECT_PERIOD_SEC := 20

  // A line or a record of the gateway's own, made into a record; nothing when that failed.
  // `taken` is what the client will answer if the record is published live.
  datatype Attempt = Nothing | Record(rec: Rec, taken: bool)
  type Built = b: Attempt | b.Record? ==> b.rec != [] witness Nothing

  // What the client takes of the records built, in order.
  function OnWire(built: seq<Built>): seq<Rec> {
    if built == [] then []
    else
      var before, last := OnWire(built[..|built| - 1]), built[|built| - 1];
      if last.Record? && last.taken then before + [last.rec] else before
  }

  // The records built, in order.
  function Recs(built: seq<Built>): (recs: seq<Rec>)
    ensures |recs| <= |built| && forall r :: r in recs ==> r != []
  {
    if built == [] then []
    else
      var before, last := Recs(built[..|built| - 1]), built[|built| - 1];
      if last.Record? then before + [last.rec] else before
  }

  // The spool after a record that may not have been built.
  lemma PushOne(s: M.State, b: Built)
    requires s.tail < U32_MAX
    ensures M.PushAll(s, Recs([b])) == if b.Record? then M.Push(s, b.rec, M.Done).0 else s
  {
    OneBuilt(b, false);
    if b.Record? {
      assert [b.rec][..0] == [];
    }
  }

  // Each record built is routed once.
  function Builds(built: seq<Built>, connected: bool): (es: seq<Event>)
    ensures |es| == |Recs(built)|
  {
    if built == [] then []
    else
      var before, last := Builds(built[..|built| - 1], connected), built[|built| - 1];
      if last.Record? then before + [Build(last.rec, connected, last.taken)] else before
  }

  lemma NoneBuilt(connected: bool)
    ensures OnWire([]) == [] && Builds([], connected) == [] && Recs([]) == []
  {
  }

  lemma OneBuilt(b: Built, connected: bool)
    ensures OnWire([b]) == if b.Record? && b.taken then [b.rec] else []
    ensures Builds([b], connected) == if b.Record? then [Build(b.rec, connected, b.taken)] else []
    ensures Recs([b]) == if b.Record? then [b.rec] else []
  {
    assert [b][..0] == [];
  }

  lemma OneMoreBuilt(built: seq<Built>, i: nat, connected: bool)
    requires i < |built|
    ensures OnWire(built[..i + 1]) == OnWire(built[..i]) + OnWire([built[i]])
    ensures Builds(built[..i + 1], connected) == Builds(built[..i], connected) + Builds([built[i]], connected)
    ensures Recs(built[..i + 1]) == Recs(built[..i]) + Recs([built[i]])
  {
    assert built[..i + 1][..i] == built[..i];
    OneBuilt(built[i], connected);
  }

  lemma {:induction false} WireOnBoth(a: seq<Built>, b: seq<Built>)
    ensures OnWire(a + b) == OnWire(a) + OnWire(b)
  {
    if b == [] {
      assert a + b == a;
    } else {
      assert (a + b)[..|a + b| - 1] == a + b[..|b| - 1];
      WireOnBoth(a, b[..|b| - 1]);
    }
  }

  lemma {:induction false} BuildsOnBoth(a: seq<Built>, b: seq<Built>, connected: bool)
    ensures Builds(a + b, connected) == Builds(a, connected) + Builds(b, connected)
  {
    if b == [] {
      assert a + b == a;
    } else {
      assert (a + b)[..|a + b| - 1] == a + b[..|b| - 1];
      BuildsOnBoth(a, b[..|b| - 1], connected);
    }
  }

  lemma {:induction false} RecsOnBoth(a: seq<Built>, b: seq<Built>)
    ensures Recs(a + b) == Recs(a) + Recs(b)
  {
    if b == [] {
      assert a + b == a;
    } else {
      assert (a + b)[..|a + b| - 1] == a + b[..|b| - 1];
      RecsOnBoth(a, b[..|b| - 1]);
    }
  }

  lemma BuiltOnBoth(a: seq<Built>, b: seq<Built>, connected: bool)
    ensures OnWire(a + b) == OnWire(a) + OnWire(b)
    ensures Builds(a + b, connected) == Builds(a, connected) + Builds(b, connected)
    ensures Recs(a + b) == Recs(a) + Recs(b)
  {
    WireOnBoth(a, b);
    BuildsOnBoth(a, b, connected);
    RecsOnBoth(a, b);
  }

  // What has arrived before the i-th pop; nothing after the last arrival.
  function Arrival(arrivals: seq<seq<byte>>, i: nat): seq<byte> {
    if i < |arrivals| then arrivals[i] else []
  }

  // The first i arrivals as one stream.
  function Joined(arrivals: seq<seq<byte>>, i: nat): seq<byte> {
    if i == 0 then [] else Joined(arrivals, i - 1) + Arrival(arrivals, i - 1)
  }

  // The bytes of the arrivals from the i-th on.
  function VolumeFrom(arrivals: seq<seq<byte>>, i: nat): nat
    decreases |arrivals| - i
  {
    if i >= |arrivals| then 0 else |arrivals[i]| + VolumeFrom(arrivals, i + 1)
  }

  function Volume(arrivals: seq<seq<byte>>): nat {
    VolumeFrom(arrivals, 0)
  }

  lemma NothingArrived(arrivals: seq<seq<byte>>)
    ensures Joined(arrivals, 0) == [] && VolumeFrom(arrivals, 0) == Volume(arrivals)
  {
  }

  lemma ArriveOne(arrivals: seq<seq<byte>>, i: nat)
    ensures VolumeFrom(arrivals, i) == |Arrival(arrivals, i)| + VolumeFrom(arrivals, i + 1)
    ensures Joined(arrivals, i + 1) == Joined(arrivals, i) + Arrival(arrivals, i)
  {
  }

  class Loop {
    const spool: S.Spool
    const link0: U.Link
    const link1: U.Link
    var spoolOk: bool
    var wasConnected: bool
    var lastPub: int
    var lastReconnect: int
    var fwdTotal: nat
    var wire: seq<Rec>
    ghost var world: World

    ghost predicate Valid()
      reads this, spool, spool.disk
    {
      && spool.disk.Length > 0 && world.sp == spool.View() && wire == world.log.wire
      && spoolOk == spool.ready && world.log.pending.Idle? && Inv(world)
    }

    // The two links share nothing.
    ghost predicate LinksValid()
      reads this, link0, link0.line, link0.rb, link0.rb.buf, link1, link1.line, link1.rb, link1.rb.buf
    {
      && link0.Valid() && link1.Valid() && link0 != link1 && link0.rb != link1.rb
      && {link0.line, link0.rb.buf} !! {link1.line, link1.rb.buf}
    }

    // The spool has been through its boot scan, successfully or not.
    constructor (booted: S.Spool, l0: U.Link, l1: U.Link)
      requires booted.disk.Length > 0 && Sound(booted.View()) && NoEmptyRecord(M.Queue(Durable(booted.View())))
      ensures Valid() && spool == booted && world == Start(booted.View()) && fwdTotal == 0
      ensures link0 == l0 && link1 == l1
    {
      spool, link0, link1 := booted, l0, l1;
      spoolOk := booted.ready;
      wasConnected, lastPub, lastReconnect, fwdTotal, wire := false, 0, 0, 0, [];
      world := Start(booted.View());
      StartHolds(booted.View());
    }

    // Publish live, or spool, or lose the record because the spool is offline.  The client's
    // answer is not looked at.
    method Route(rec: Rec, connected: bool, taken: bool)
      requires Valid() && rec != [] && spool.tailSeq < U32_MAX
      modifies this`wire, this`world, spool, spool.disk
      ensures Valid() && Leads(old(world), [Build(rec, connected, taken)], world)
      ensures wire == old(wire) + if connected && taken then [rec] else []
      ensures spool.View() == if connected then old(spool.View()) else M.Push(old(spool.View()), rec, M.Done).0
      ensures world.log.built == old(world).log.built + 1
      ensures spool.tailSeq <= old(spool.tailSeq) + 1
    {
      hide Inv, Leads, S.Cells, M.Push;
      ghost var before := world;
      OneEvent(before, Build(rec, connected, taken));
      RouteRefines(before, rec, connected, taken);
      if connected {
        if taken {
          wire := wire + [rec];
        }
      } else if spoolOk {
        var _ := spool.Push(rec, S.WriteOk);
      }
      world := Step(before, Build(rec, connected, taken));
    }

    // Route a record if it could be built.
    method PublishOrSpool(own: Built, connected: bool)
      requires Valid() && spool.tailSeq < U32_MAX
      modifies this`wire, this`world, spool, spool.disk
      ensures Valid() && Leads(old(world), Builds([own], connected), world)
      ensures wire == old(wire) + if connected then OnWire([own]) else []
      ensures spool.View() == if connected then old(spool.View()) else M.PushAll(old(spool.View()), Recs([own]))
      ensures world.log.built == old(world).log.built + |Recs([own])|
      ensures spool.tailSeq <= old(spool.tailSeq) + 1
    {
      hide Inv, Leads, Step, Enabled, S.Cells, M.Queue, M.Push, OnWire, Builds, Recs, M.PushAll;
      OneBuilt(own, connected);
      PushOne(spool.View(), own);
      NoEvent(world);
      if own.Record? {
        Route(own.rec, connected, own.taken);
      }
    }

    // The interrupt handler runs on what has arrived, then the next line is popped.
    method NextLine(link: U.Link, chunk: seq<byte>) returns (line: U.PopResult)
      requires link.Valid()
      modifies link, link.line, link.rb, link.rb.buf
      ensures link.Valid() && !line.TooSmall? && link.discarded == old(link.discarded)
      ensures link.seen == old(link.seen) + chunk
      ensures line.Empty? ==> link.queue == [] && link.popped == old(link.popped)
      ensures line.Line? ==>
        |link.queue| < |old(link.queue)| + |chunk| && link.popped == old(link.popped) + [line.json]
    {
      hide L.Frames, L.Framable, L.Short, L.Payloads, L.Keep, L.Lines, L.Events, L.Admit, L.Unfinished;
      link.Isr(chunk);
      line := link.Pop(L.LINE_MAX);
    }

    // Since `start`, exactly the records of b have been routed and counted.
    ghost predicate Routed(b: seq<Built>, connected: bool, start: World, wire0: seq<Rec>, fwd0: nat)
      requires spool.disk.Length > 0 && start.sp.tail + |b| <= U32_MAX
      reads this, spool, spool.disk
    {
      && Leads(start, Builds(b, connected), world)
      && spool.View() == (if connected then start.sp else M.PushAll(start.sp, Recs(b)))
      && world.log.built == start.log.built + |Recs(b)|
      && wire == wire0 + (if connected then OnWire(b) else [])
      && fwdTotal == fwd0 + if connected then |Builds(b, connected)| else 0
    }

    // What is made of the next line, routed and counted.
    method Forward(built: seq<Built>, i: nat, connected: bool,
                   ghost start: World, ghost wire0: seq<Rec>, ghost fwd0: nat)
      requires Valid() && i < |built| && start.sp.tail + i < U32_MAX && spool.tailSeq < U32_MAX
      requires Routed(built[..i], connected, start, wire0, fwd0)
      modifies this`wire, this`world, this`fwdTotal, spool, spool.disk
      ensures Valid() && Routed(built[..i + 1], connected, start, wire0, fwd0)
      ensures spool.tailSeq <= old(spool.tailSeq) + 1
    {
      hide Inv, Leads, Step, Enabled, S.Cells, M.Queue, OnWire, Builds, Recs, M.PushAll;
      var b := built[i];
      ghost var before := world;
      OneBuilt(b, connected);
      OneMoreBuilt(built, i, connected);
      M.PushOnBoth(start.sp, Recs(built[..i]), Recs([b]));
      PublishOrSpool(b, connected);
      LeadsOn(start, Builds(built[..i], connected), before, Builds([b], connected), world);
      if connected && b.Record? {
        fwdTotal := fwdTotal + 1;
      }
    }

    lemma NothingRouted(connected: bool)
      requires Valid() && spool.tailSeq <= U32_MAX
      ensures Routed([], connected, world, wire, fwdTotal)
    {
      NoEvent(world);
      NoneBuilt(connected);
    }

    /** Empty one link's queue while the interrupt handler keeps adding to it: `arrivals[i]` is what
        has arrived before the i-th pop.  Every line popped is routed once, in order, as what
        `built` says is made of it; no line is discarded, and the queue is empty in the end. */
    method IngestLink(link: U.Link, arrivals: seq<seq<byte>>, built: seq<Built>, connected: bool)
      returns (lines: seq<Rec>)
      requires Valid() && link.Valid() && |built| == |link.queue| + Volume(arrivals)
      requires spool.tailSeq + |built| <= U32_MAX
      modifies this`wire, this`world, this`fwdTotal, spool, spool.disk, link, link.line, link.rb, link.rb.buf
      ensures Valid() && |lines| <= |built|
      ensures Routed(built[..|lines|], connected, old(world), old(wire), old(fwdTotal))
      ensures spool.tailSeq <= old(spool.tailSeq) + |lines|
      ensures link.Valid() && link.queue == [] && link.popped == old(link.popped) + lines
      ensures link.seen == old(link.seen) + Joined(arrivals, |lines| + 1) && link.discarded == old(link.discarded)
    {
      hide Inv, S.Cells, Routed, Joined, VolumeFrom, U.Link.Valid;
      NothingRouted(connected);
      assert built[..0] == [];
      lines := [];
      ArriveOne(arrivals, 0);
      NothingArrived(arrivals);
      var r := NextLine(link, Arrival(arrivals, 0));
      while r.Line?
        invariant link.Valid() && link.discarded == old(link.discarded)
        invariant link.seen == old(link.seen) + Joined(arrivals, |lines| + 1)
        invariant !r.TooSmall? && (r.Empty? ==> link.queue == [])
        invariant link.popped == old(link.popped) + lines + if r.Line? then [r.json] else []
        invariant |lines| + |link.queue| + VolumeFrom(arrivals, |lines| + 1) + (if r.Line? then 1 else 0) <= |built|
        invariant Valid() && Routed(built[..|lines|], connected, old(world), old(wire), old(fwdTotal))
        invariant spool.tailSeq <= old(spool.tailSeq) + |lines|
        decreases |built| - |lines|
      {
        Forward(built, |lines|, connected, old(world), old(wire), old(fwdTotal));
        lines := lines + [r.json];
        ArriveOne(arrivals, |lines|);
        r := NextLine(link, Arrival(arrivals, |lines|));
      }
    }

    // Both links in turn; either is found empty once.
    method IngestChildren(arrivals0: seq<seq<byte>>, built0: seq<Built>, arrivals1: seq<seq<byte>>, built1: seq<Built>,
                          connected: bool)
      returns (n0: nat, n1: nat)
      requires Valid() && LinksValid()
      requires |built0| == |link0.queue| + Volume(arrivals0) && |built1| == |link1.queue| + Volume(arrivals1)
      requires spool.tailSeq + |built0| + |built1| <= U32_MAX
      modifies this`wire, this`world, this`fwdTotal, spool, spool.disk
      modifies link0, link0.line, link0.rb, link0.rb.buf, link1, link1.line, link1.rb, link1.rb.buf
      ensures n0 <= |built0| && n1 <= |built1|
      ensures Valid() && Leads(old(world), Builds(built0[..n0] + built1[..n1], connected), world)
      ensures wire == old(wire) + if connected then OnWire(built0[..n0] + built1[..n1]) else []
      ensures spool.View() ==
        if connected then old(spool.View()) else M.PushAll(old(spool.View()), Recs(built0[..n0] + built1[..n1]))
      ensures world.log.built == old(world).log.built + |Recs(built0[..n0] + built1[..n1])|
      ensures spool.tailSeq <= old(spool.tailSeq) + n0 + n1
      ensures fwdTotal == old(fwdTotal) + if connected then |Recs(built0[..n0] + built1[..n1])| else 0
      // One record per line popped.
      ensures |link0.popped| == |old(link0.popped)| + n0 && |link1.popped| == |old(link1.popped)| + n1
      ensures LinksValid() && link0.queue == [] && link1.queue == []
    {
      hide Inv, Leads, Step, S.Cells, M.Push, OnWire, Builds, Recs, M.PushAll, Volume, Joined;
      hide L.Frames, L.Framable, L.Short, L.Payloads, L.Keep, L.Lines, L.Events;
      var lines0 := IngestLink(link0, arrivals0, built0, connected);
      n0 := |lines0|;
      ghost var between := world;
      var lines1 := IngestLink(link1, arrivals1, built1, connected);
      n1 := |lines1|;
      M.PushOnBoth(old(spool.View()), Recs(built0[..n0]), Recs(built1[..n1]));
      BuiltOnBoth(built0[..n0], built1[..n1], connected);
      LeadsOn(old(world), Builds(built0[..n0], connected), between, Builds(built1[..n1], connected), world);
    }

    // Peek, publish, commit, at most DRAIN_PER_TICK times; the client takes some of it.
    method DrainSome(taken: seq<bool>) returns (ghost events: seq<Event>)
      requires Valid() && spoolOk && |taken| == DRAIN_PER_TICK
      modifies this`wire, this`world, spool, spool.disk
      ensures Valid() && Leads(old(world), events, world) && DrainOnly(events)
      ensures world.log.built == old(world).log.built
      ensures var q := old(M.Queue(spool.View())); var k := |Backlog(q)|;
        wire == old(wire) + L.Keep(q[..k], taken[..k]) && M.Queue(spool.View()) == q[k..]
    {
      hide Inv, Leads, Step, Enabled, S.Cells, M.Queue, L.Keep;
      events := [];
      NoEvent(world);
      KeepNone();
      ghost var q := M.Queue(spool.View());
      for i := 0 to DRAIN_PER_TICK
        invariant Valid() && spoolOk && Leads(old(world), events, world) && DrainOnly(events)
        invariant world.log.built == old(world).log.built
        invariant i <= |q| && M.Queue(spool.View()) == q[i..]
        invariant wire == old(wire) + L.Keep(q[..i], taken[..i])
      {
        ghost var w0 := world;
        DrainTurnRefines(w0, taken[i]);
        var n, buf := spool.Peek(PAYLOAD_MAX + 1, map[]);
        world := Step(w0, PeekPublish(taken[i]));
        ghost var w1 := world;
        if n.n == 0 {
          OneEvent(w0, PeekPublish(taken[i]));
          LeadsOn(old(world), events, w0, [PeekPublish(taken[i])], w1);
          events := events + [PeekPublish(taken[i])];
          assert q[i..] == [];
          break;
        }
        KeepNext(q, taken, i);
        if taken[i] {
          wire := wire + [buf];
        }
        var _ := spool.Commit(S.WriteOk);
        world := Step(w1, CommitFront);
        TwoEvents(w0, PeekPublish(taken[i]), CommitFront);
        LeadsOn(old(world), events, w0, [PeekPublish(taken[i]), CommitFront], world);
        events := events + [PeekPublish(taken[i]), CommitFront];
      }
    }

    static ghost predicate DrainOnly(events: seq<Event>) {
      forall i :: 0 <= i < |events| ==> events[i].PeekPublish? || events[i].CommitFront?
    }

    // What a drain of the queue q publishes.
    static function Backlog(q: seq<Rec>): seq<Rec> {
      if |q| < DRAIN_PER_TICK then q else q[..DRAIN_PER_TICK]
    }

    // `sdkConnected` and `connectOk` are the answers of the connection library.
    method Reconnect(now: int, sdkConnected: bool, connectOk: bool) returns (connected: bool)
      modifies this`lastReconnect, this`wasConnected
      ensures var retry :=
          !sdkConnected && (old(lastReconnect) == 0 || now - old(lastReconnect) >= RECONNECT_PERIOD_SEC * 1000);
        && connected == (sdkConnected || (retry && connectOk))
        && lastReconnect == (if retry then now else old(lastReconnect))
        && wasConnected == (connected || (old(wasConnected) && !retry))
      // Two attempts are at least a period apart.
      ensures lastReconnect != old(lastReconnect) && old(lastReconnect) != 0 ==>
        lastReconnect - old(lastReconnect) >= RECONNECT_PERIOD_SEC * 1000
    {
      connected := sdkConnected;
      if !connected && (lastReconnect == 0 || now - lastReconnect >= RECONNECT_PERIOD_SEC * 1000) {
        if wasConnected {
          wasConnected := false;
        }
        lastReconnect := now;
        if connectOk {
          connected := true;
        }
      }
      if connected {
        wasConnected := true;
      }
    }

    /** One turn of the loop.  `arrivals0` and `arrivals1` are what the links receive meanwhile;
        `built0` and `built1` say what is made of their lines, `own` of the gateway's own values,
        and `taken` what the client answers in the drain.  The records of the turn are the
        children's, then the gateway's own if it is due; each is built exactly once, before the
        drain.  Offline, nothing is published and all of them are pushed onto the spool, in order;
        online, they go out in that order, then at most four spooled records, oldest first. */
    method Tick(now: int, sdkConnected: bool, connectOk: bool, arrivals0: seq<seq<byte>>, built0: seq<Built>,
                arrivals1: seq<seq<byte>>, built1: seq<Built>, own: Built, intervalSec: int, taken: seq<bool>)
      returns (connected: bool, n0: nat, n1: nat, ghost records: seq<Built>, ghost drain: seq<Event>)
      requires Valid() && LinksValid()
      requires |built0| == |link0.queue| + Volume(arrivals0) && |built1| == |link1.queue| + Volume(arrivals1)
      requires spool.tailSeq + |built0| + |built1| < U32_MAX && |taken| == DRAIN_PER_TICK
      modifies this, spool, spool.disk
      modifies link0, link0.line, link0.rb, link0.rb.buf, link1, link1.line, link1.rb, link1.rb.buf
      ensures Valid() && LinksValid() && link0.queue == [] && link1.queue == []
      ensures n0 <= |built0| && n1 <= |built1|
      ensures |link0.popped| == |old(link0.popped)| + n0 && |link1.popped| == |old(link1.popped)| + n1
      ensures var retry := old(lastReconnect) == 0 || now - old(lastReconnect) >= 20_000;
        && connected == (sdkConnected || (retry && connectOk))
        && lastReconnect == (if !sdkConnected && retry then now else old(lastReconnect))
        && wasConnected == (connected || (old(wasConnected) && !(!sdkConnected && retry)))
      ensures fwdTotal == old(fwdTotal) + if connected then |Recs(built0[..n0] + built1[..n1])| else 0
      ensures var due := old(lastPub) == 0 || now - old(lastPub) >= intervalSec * 1000;
        && records == built0[..n0] + built1[..n1] + (if due then [own] else [])
        && lastPub == if due then now else old(lastPub)
      ensures Leads(old(world), Builds(records, connected) + drain, world) && DrainOnly(drain)
      ensures world.log.built == old(world).log.built + |Recs(records)|
      ensures !connected ==>
        wire == old(wire) && drain == [] && spool.View() == M.PushAll(old(spool.View()), Recs(records))
      ensures connected ==>
        var q := old(M.Queue(spool.View())); var k := if |q| < 4 then |q| else 4;
        && wire == old(wire) + OnWire(records) + (if old(spoolOk) then L.Keep(q[..k], taken[..k]) else [])
        && (if old(spoolOk) then M.Queue(spool.View()) == q[k..] else spool.View() == old(spool.View()) && drain == [])
    {
      hide Inv, Leads, Step, S.Cells, M.Queue, M.Push, OnWire, Builds, Recs, M.PushAll, Volume, L.Keep, U.Link.Valid;
      connected := Reconnect(now, sdkConnected, connectOk);
      n0, n1 := IngestChildren(arrivals0, built0, arrivals1, built1, connected);
      ghost var children, mine, between := built0[..n0] + built1[..n1], [], spool.View();
      mine, drain := Rest(now, connected, own, intervalSec, taken, old(world), Builds(children, connected));
      records := children + mine;
      BuiltOnBoth(children, mine, connected);
      M.PushOnBoth(old(spool.View()), Recs(children), Recs(mine));
    }

    // The second half of a turn: the gateway's own record and the drain.
    method Rest(now: int, connected: bool, own: Built, intervalSec: int, taken: seq<bool>,
                ghost start: World, ghost before: seq<Event>)
      returns (ghost mine: seq<Built>, ghost drain: seq<Event>)
      requires Valid() && spool.tailSeq < U32_MAX && |taken| == DRAIN_PER_TICK && Leads(start, before, world)
      modifies this`wire, this`world, this`lastPub, spool, spool.disk
      ensures Valid() && Leads(start, before + Builds(mine, connected) + drain, world) && DrainOnly(drain)
      ensures var due := old(lastPub) == 0 || now - old(lastPub) >= intervalSec * 1000;
        mine == (if due then [own] else []) && lastPub == if due then now else old(lastPub)
      ensures world.log.built == old(world).log.built + |Recs(mine)|
      ensures !connected ==>
        wire == old(wire) && drain == [] && spool.View() == M.PushAll(old(spool.View()), Recs(mine))
      ensures connected ==>
        var q := old(M.Queue(spool.View())); var k := |Backlog(q)|;
        && wire == old(wire) + OnWire(mine) + (if old(spoolOk) then L.Keep(q[..k], taken[..k]) else [])
        && (if old(spoolOk) then M.Queue(spool.View()) == q[k..] else spool.View() == old(spool.View()) && drain == [])
    {
      hide Inv, Leads, Step, Enabled, S.Cells, M.Queue, OnWire, Builds, Recs, L.Keep;
      mine, drain := [], [];
      NoneBuilt(connected);
      ghost var w0 := world;
      NoEvent(w0);
      if lastPub == 0 || now - lastPub >= intervalSec * 1000 {
        PublishOrSpool(own, connected);
        mine := [own];
        lastPub := now;
      }
      LeadsOn(start, before, w0, Builds(mine, connected), world);
      assert before + Builds(mine, connected) + [] == before + Builds(mine, connected);
      if connected && spoolOk {
        ghost var w1 := world;
        drain := DrainSome(taken);
        LeadsOn(start, before + Builds(mine, connected), w1, drain, world);
      }
    }
  }

  lemma KeepNone()
    ensures forall q: seq<Rec>, t: seq<bool> :: L.Keep(q[..0], t[..0]) == []
  {
  }

  lemma KeepNext(q: seq<Rec>, taken: seq<bool>, i: nat)
    requires i < |q| && i < |taken|
    ensures L.Keep(q[..i + 1], taken[..i + 1]) == L.Keep(q[..i], taken[..i]) + if taken[i] then [q[i]] else []
  {
    assert q[..i + 1] == q[..i] + [q[i]] && taken[..i + 1] == taken[..i] + [taken[i]];
    L.KeepAfter(q[..i], taken[..i], q[i], taken[i]);
  }

  lemma NoEvent(w: World)
    ensures Leads(w, [], w)
  {
  }

  lemma OneEvent(w: World, e: Event)
    requires Enabled(w, e)
    ensures Leads(w, [e], Step(w, e))
  {
    hide Step;
    NoEvent(Step(w, e));
  }

  lemma TwoEvents(w: World, e: Event, f: Event)
    requires Enabled(w, e) && Enabled(Step(w, e), f)
    ensures Leads(w, [e, f], Step(Step(w, e), f))
  {
    OneEvent(w, e);
    OneEvent(Step(w, e), f);
    LeadsOn(w, [e], Step(w, e), [f], Step(Step(w, e), f));
    assert [e] + [f] == [e, f];
  }

  // What the loop's routing has to do to be the event Build.
  lemma RouteRefines(w: World, rec: Rec, connected: bool, taken: bool)
    requires Inv(w) && Enabled(w, Build(rec, connected, taken)) && w.sp.tail < U32_MAX
    ensures var w' := Step(w, Build(rec, connected, taken));
      && Inv(w') && w'.log.pending.Idle? && w'.log.wire == w.log.wire + (if connected && taken then [rec] else [])
      && w'.sp == (if connected then w.sp else M.Push(w.sp, rec, M.Done).0) && (!w.sp.ready ==> w'.sp == w.sp)
      && w'.log.built == w.log.built + 1
      && w'.sp.tail <= w.sp.tail + 1 && w'.sp.ready == w.sp.ready
  {
    hide IntactAt, Put, History, Live, M.Steady, M.ShortRecords;
    BuildKeeps(w, rec, connected, taken);
  }

  // What one turn of the drain loop has to do to be a publish and a commit.
  lemma DrainTurnRefines(w: World, taken: bool)
    requires Inv(w) && w.log.pending.Idle? && w.sp.ready
    ensures Enabled(w, PeekPublish(taken))
    ensures var w1 := Step(w, PeekPublish(taken));
      var (s1, ret, out) := M.Peek(w.sp, PAYLOAD_MAX + 1, map[]);
      && w1.sp == s1 && ret.Value? && Inv(w1) && s1.ready && w1.log.built == w.log.built
      && M.Queue(s1) == M.Queue(w.sp)
      && (ret.n == 0 ==> M.Queue(w.sp) == [] && w1.log == w.log)
      && (ret.n > 0 ==>
            var w2 := Step(w1, CommitFront);
            && M.Queue(w.sp) != [] && out == M.Queue(w.sp)[0] && Enabled(w1, CommitFront)
            && w2.sp == M.Commit(s1, M.Done).0 && Inv(w2) && w2.log.pending.Idle? && w2.sp.ready
            && w2.log.built == w.log.built && w2.log.wire == w.log.wire + (if taken then [out] else [])
            && M.Queue(w2.sp) == M.Queue(w.sp)[1..])
  {
    PublishRefines(w, taken);
    var w1 := Step(w, PeekPublish(taken));
    if !w1.log.pending.Idle? {
      CommitRefines(w1);
      M.DrainTurn(w.sp, map[], M.Done);
    }
    hide Inv, Step, Live, M.Peek, M.Commit, M.Queue;
  }

  lemma PublishRefines(w: World, taken: bool)
    requires Inv(w) && w.log.pending.Idle? && w.sp.ready
    ensures var w1 := Step(w, PeekPublish(taken));
      var (s1, ret, out) := M.Peek(w.sp, PAYLOAD_MAX + 1, map[]);
      && w1.sp == s1 && ret.Value? && Inv(w1) && s1.ready && w1.log.built == w.log.built
      && M.Queue(s1) == M.Queue(w.sp)
      && (ret.n == 0 ==> M.Queue(w.sp) == [] && w1.log == w.log)
      && (ret.n > 0 ==> M.Queue(w.sp) != [] && out == M.Queue(w.sp)[0] && !w1.log.pending.Idle?
                        && w1.log.wire == w.log.wire + if taken then [out] else [])
  {
    QueueFront(w);
    M.DrainTurn(w.sp, map[], M.Done);
    PeekKeeps(w, taken);
    M.PeekBalance(w.sp, PAYLOAD_MAX + 1, map[]);
    hide History, Live, M.Peek, M.Commit;
  }

  lemma CommitRefines(w1: World)
    requires Inv(w1) && !w1.log.pending.Idle?
    ensures var w2 := Step(w1, CommitFront);
      Enabled(w1, CommitFront) && w2.sp == M.Commit(w1.sp, M.Done).0 && Inv(w2) && w2.log.pending.Idle?
      && w2.sp.ready == w1.sp.ready && w2.log.wire == w1.log.wire
      && w2.log.built == w1.log.built
  {
    CommitKeeps(w1);
    hide Inv, Put;
  }
}
