/** The store-and-forward spool over raw disk sectors, in the form of its source: RAM counters,
    a shared staging buffer and a disk of three-sector slots, all updated in place. */
module Spool {
  import opened Arith
  import opened Bytes
  import opened SpoolSlot
  import opened SpoolRing
  import M = SpoolModel

  // The driver's answer to a write: success, or an error after some sectors landed.
  datatype DriverWrite = WriteOk | WriteErr(err: int, landed: Landed)

  function Cells(d: seq<Slot>): (r: seq<Cell>)
    ensures |r| == |d|
  {
    seq(|d|, i requires 0 <= i < |d| => CellOf(d[i]))
  }

  lemma CellsAt(d: seq<Slot>, i: nat)
    requires i < |d|
    ensures Cells(d)[i] == CellOf(d[i])
  {
  }

  lemma CellsUpdate(d: seq<Slot>, i: nat, s: Slot)
    requires i < |d|
    ensures Cells(d[i := s]) == Cells(d)[i := CellOf(s)]
  {
  }

  lemma CellsAreShort(d: seq<Slot>)
    requires |d| > 0
    ensures M.ShortRecords(Cells(d))
  {
  }

  // What a push leaves behind, as the model sees it.
  function PushOutcome(before: Slot, q: nat, json: Rec, w: DriverWrite): M.Write {
    if w.WriteOk? || q > U32_MAX || |json| > PAYLOAD_MAX then M.Done
    else M.Failed(w.err, CellOf(Torn(before, Record(q, json), w.landed)))
  }

  function CommitOutcome(before: Slot, w: DriverWrite): M.Write {
    if w.WriteOk? then M.Done
    else M.Failed(w.err, if w.landed.l0 then Blank else CellOf(before))
  }

  // A wipe writes every header, or stops at a slot whose write fails; one sector lands or not.
  datatype WipeWrites = AllWritten | StoppedAt(slot: nat, landed: bool, err: int)

  // How many headers a wipe zeroes.
  function Zeroed(w: WipeWrites, n: nat): nat {
    match w
    case AllWritten => n
    case StoppedAt(k, landed, _) => if k >= n then n else if landed then k + 1 else k
  }

  // How many records a drain of at most `limit` publishes: it stops at an empty record.
  function Drainable(q: seq<Rec>, limit: nat): (k: nat)
    ensures k <= |q| && k <= limit
  {
    if limit == 0 || q == [] || q[0] == [] then 0 else 1 + Drainable(q[1..], limit - 1)
  }

  class Spool {
    const disk: array<Slot>
    var slotBuf: Slot
    var headSeq: nat
    var tailSeq: nat
    var recCount: nat
    var stats: M.Stats
    var ready: bool

    ghost function View(): M.State
      requires disk.Length > 0
      reads this, disk
    {
      M.State(Cells(disk[..]), headSeq, tailSeq, recCount, stats, ready)
    }

    // RAM is zero at power-up; the disk is whatever it was.
    constructor (medium: array<Slot>)
      ensures disk == medium && !ready && stats == M.Stats(0, 0, 0, 0, 0)
      ensures headSeq == tailSeq == recCount == 0
    {
      disk := medium;
      slotBuf := Slot(Fill(0, SECTOR_BYTES), Fill(0, SECTOR_BYTES), Fill(0, SECTOR_BYTES));
      headSeq, tailSeq, recCount := 0, 0, 0;
      stats := M.Stats(0, 0, 0, 0, 0);
      ready := false;
    }

    /** Scan every header; `initErr` is the driver's init code and `bad` its unreadable slots. */
    method Init(initErr: int, bad: set<nat>) returns (ret: M.Ret)
      requires disk.Length > 0
      modifies this
      ensures initErr != 0 ==> ret == M.Io(initErr) && View() == old(View())
      ensures initErr == 0 && (exists i :: 0 <= i < disk.Length && i in bad) ==>
                ret == M.Io(M.EIO) && View() == old(View())
      ensures initErr == 0 && (forall i :: 0 <= i < disk.Length ==> i !in bad) ==>
                var b := M.Boot(Cells(disk[..]));
                ret == M.Value(0) && View() == b.(stats := old(stats).(capacity := disk.Length, count := b.count))
    {
      hide CellOf, DecodeHdr, ScanCells, M.Boot;
      if initErr != 0 {
        return M.Io(initErr);
      }
      var maxSeq: u32, minSeq: u32, valid := 0, U32_MAX, 0;
      ghost var cells := Cells(disk[..]);
      ScanEnds(cells);
      for i := 0 to disk.Length
        invariant Scan(valid, maxSeq, minSeq) == ScanCells(cells[..i])
        invariant forall j :: 0 <= j < i ==> j !in bad
        invariant headSeq == old(headSeq) && tailSeq == old(tailSeq) && recCount == old(recCount)
        invariant stats == old(stats) && ready == old(ready)
      {
        if i in bad {
          return M.Io(M.EIO);
        }
        slotBuf := slotBuf.(s0 := disk[i].s0);
        var h := DecodeHdr(slotBuf.s0);
        CellsAt(disk[..], i);
        ScanCell(disk[i], Scan(valid, maxSeq, minSeq));
        ScanGrows(cells, i);
        if h.magic == REC_MAGIC && h.len <= PAYLOAD_MAX {
          valid := valid + 1;
          maxSeq := if h.seqno > maxSeq then h.seqno else maxSeq;
          minSeq := if h.seqno < minSeq then h.seqno else minSeq;
        }
      }
      M.BootFromScan(cells);
      if valid == 0 {
        headSeq, tailSeq, recCount := 0, 0, 0;
      } else {
        tailSeq := (maxSeq + 1) % (U32_MAX + 1);
        var floor := if maxSeq >= disk.Length - 1 then maxSeq - (disk.Length - 1) else 0;
        headSeq := if minSeq > floor then minSeq else floor;
        recCount := (tailSeq - headSeq) % (U32_MAX + 1);
      }
      stats := stats.(capacity := disk.Length, count := recCount);
      ready := true;
      return M.Value(0);
    }

    method Push(json: Rec, w: DriverWrite) returns (ret: M.Ret)
      requires disk.Length > 0 && tailSeq < U32_MAX
      modifies this, disk
      ensures (View(), ret) == M.Push(old(View()), json,
        old(PushOutcome(disk[Residue(tailSeq, disk.Length)], tailSeq, json, w)))
    {
      hide CellOf, Record, Torn;
      if !ready {
        return M.NoDevice;
      }
      if |json| > PAYLOAD_MAX {
        stats := stats.(drops := stats.drops + 1);
        return M.MsgTooLong;
      }
      if recCount == disk.Length {
        headSeq := headSeq + 1;
        recCount := recCount - 1;
        stats := stats.(drops := stats.drops + 1);
      }
      slotBuf := Record(tailSeq, json);
      ResidueIsRemainder(tailSeq, disk.Length);
      var slot := tailSeq % disk.Length;
      CellsUpdate(disk[..], slot, if w.WriteOk? then slotBuf else Torn(disk[slot], slotBuf, w.landed));
      RecordCell(tailSeq, json);
      ghost var before := disk[..];
      match w {
        case WriteOk =>
          disk[slot] := slotBuf;
          tailSeq := tailSeq + 1;
          recCount := recCount + 1;
          stats := stats.(pushed := stats.pushed + 1, count := recCount);
          ret := M.Value(0);
        case WriteErr(e, l) =>
          disk[slot] := Torn(disk[slot], slotBuf, l);
          ret := M.Io(e);
      }
      assert disk[..] == before[slot := disk[slot]];
    }

    // Read the front slot into the staging buffer and check its header and payload.
    method LoadFront(bufSize: nat) returns (good: bool)
      requires disk.Length > 0
      modifies this`slotBuf
      ensures slotBuf == disk[Residue(headSeq, disk.Length)]
      ensures good == M.Deliverable(View().disk, headSeq, bufSize) == Readable(slotBuf, headSeq, bufSize)
      ensures good ==> Payload(slotBuf) == At(View().disk, headSeq).body.rec
    {
      ResidueIsRemainder(headSeq, disk.Length);
      var slot := headSeq % disk.Length;
      slotBuf := disk[slot];
      var h := DecodeHdr(slotBuf.s0);
      CellsAt(disk[..], slot);
      ReadableCell(slotBuf, headSeq, bufSize);
      hide CellOf, Crc32, DecodeHdr, Residue;
      good := !(h.magic != REC_MAGIC || h.seqno != headSeq || h.len > PAYLOAD_MAX || h.len >= bufSize
                || Crc32(Payload(slotBuf)) != h.crc);
    }

    method Peek(bufSize: nat, bad: map<nat, int>) returns (ret: M.Ret, out: Rec)
      requires disk.Length > 0
      modifies this
      ensures (View(), ret, out) == M.Peek(old(View()), bufSize, bad)
    {
      hide Cells, CellOf, Crc32, DecodeHdr, IntactAt, Residue, M.Deliverable;
      out := [];
      if !ready {
        return M.NoDevice, [];
      }
      ret := M.Value(0);
      while recCount > 0
        invariant ready && ret == M.Value(0) && out == []
        invariant M.Peek(View(), bufSize, bad) == M.Peek(old(View()), bufSize, bad)
        decreases recCount
      {
        ResidueIsRemainder(headSeq, disk.Length);
        var slot := headSeq % disk.Length;
        if slot in bad {
          ret := M.Io(bad[slot]);
          break;
        }
        var good := LoadFront(bufSize);
        if !good {
          headSeq := headSeq + 1;
          recCount := recCount - 1;
          stats := stats.(drops := stats.drops + 1, count := recCount);
          continue;
        }
        out := Payload(slotBuf);
        ret := M.Value(|out|);
        break;
      }
    }

    method Commit(w: DriverWrite) returns (ret: M.Ret)
      requires disk.Length > 0
      modifies this, disk
      ensures (View(), ret) == M.Commit(old(View()),
        old(CommitOutcome(disk[Residue(headSeq, disk.Length)], w)))
    {
      hide CellOf;
      ret := M.Value(0);
      if !ready {
        return M.NoDevice;
      }
      if recCount > 0 {
        slotBuf := slotBuf.(s0 := Fill(0, SECTOR_BYTES));
        ResidueIsRemainder(headSeq, disk.Length);
        var slot := headSeq % disk.Length;
        ghost var before := disk[..];
        CellsUpdate(before, slot, Blanked(before[slot]));
        CellsUpdate(before, slot, before[slot]);
        BlankedCell(before[slot]);
        if w.WriteOk? || w.landed.l0 {
          disk[slot] := disk[slot].(s0 := slotBuf.s0);
        }
        assert disk[..] == before[slot := disk[slot]];
        if w.WriteErr? {
          ret := M.Io(w.err);
        }
        headSeq := headSeq + 1;
        recCount := recCount - 1;
        stats := stats.(drained := stats.drained + 1, count := recCount);
      }
    }

    method Wipe(w: WipeWrites) returns (ret: M.Ret)
      requires disk.Length > 0
      modifies this, disk
      ensures View() == M.Wipe(old(View()), Zeroed(w, disk.Length))
      ensures ret == if !old(ready) then M.NoDevice
                     else if w.StoppedAt? && w.slot < disk.Length then M.Io(w.err) else M.Value(0)
    {
      hide CellOf;
      if !ready {
        return M.NoDevice;
      }
      ret := M.Value(0);
      slotBuf := slotBuf.(s0 := Fill(0, SECTOR_BYTES));
      ghost var before := disk[..];
      for i := 0 to disk.Length
        invariant slotBuf.s0 == Fill(0, SECTOR_BYTES) && ready && stats == old(stats) && ret == M.Value(0)
        invariant w.StoppedAt? ==> i <= w.slot
        invariant forall j :: 0 <= j < i ==> CellOf(disk[j]) == Blank
        invariant forall j :: i <= j < disk.Length ==> disk[j] == before[j]
      {
        BlankedCell(disk[i]);
        if w.AllWritten? || w.slot != i || w.landed {
          disk[i] := disk[i].(s0 := slotBuf.s0);
        }
        if w.StoppedAt? && w.slot == i {
          ret := M.Io(w.err);
          break;
        }
      }
      headSeq, tailSeq, recCount := 0, 0, 0;
      stats := stats.(count := 0);
      assert Cells(disk[..]) == M.Erased(Cells(before), Zeroed(w, disk.Length));
    }

    // One turn of the drain: publish the front and commit it, if there is one to be had.
    method PublishFront(bad: map<nat, int>, w: DriverWrite) returns (taken: bool, out: Rec)
      requires disk.Length > 0 && M.Running(View())
      modifies this, disk
      ensures M.Running(View()) && (w.WriteOk? && old(M.Steady(View())) ==> M.Steady(View()))
      ensures taken ==> old(M.Queue(View())) == [out] + M.Queue(View()) && out != []
      ensures !taken ==>
        var q := old(M.Queue(View())); M.Queue(View()) == q && (q == [] || q[0] == [] || bad != map[])
      ensures !taken && old(M.Steady(View())) ==> M.Steady(View())
    {
      hide CellOf, Cells, M.Queue, M.Steady, M.Running, M.Peek, M.Commit;
      ghost var v := View();
      CellsAreShort(disk[..]);
      ghost var v1 := M.Peek(v, PAYLOAD_MAX + 1, bad).0;
      PeekLeavesDisk(v, bad);
      ghost var outcome := CommitOutcome(disk[Residue(v1.head, disk.Length)], w);
      OutcomeIsPlausible(disk[..], v1, w);
      M.DrainTurn(v, bad, outcome);
      var n;
      n, out := Peek(PAYLOAD_MAX + 1, bad);
      taken := n.Value? && n.n != 0;
      if taken {
        var _ := Commit(w);
        assert M.Queue(v) == [out] + M.Queue(View());
      }
    }

    /** The drain part of the main loop, whatever the driver answers: publish the oldest record,
        then commit it, once for every pair of answers.  Everything published leaves the queue,
        in queue order; a turn goes without only at a read error, the end or an empty record. */
    method Drain(bad: seq<map<nat, int>>, w: seq<DriverWrite>) returns (published: seq<Rec>)
      requires disk.Length > 0 && M.Running(View()) && |bad| == |w|
      modifies this, disk
      ensures M.Running(View())
      ensures var q, k := old(M.Queue(View())), |published|;
        && k <= Drainable(q, |w|) && published == q[..k] && M.Queue(View()) == q[k..]
        && (k < Drainable(q, |w|) ==> bad[k] != map[])
      ensures old(M.Steady(View())) && (forall i :: 0 <= i < |w| ==> w[i].WriteOk?) ==> M.Steady(View())
    {
      hide M.Queue, M.Steady, M.Running, View, Cells, Drainable;
      published := [];
      DrainStarts(M.Queue(View()), |w|);
      for i := 0 to |w|
        invariant M.Running(View()) && |published| == i
        invariant Drained(old(M.Queue(View())), published, M.Queue(View()), |w|)
        invariant old(M.Steady(View())) && (forall j :: 0 <= j < i ==> w[j].WriteOk?) ==> M.Steady(View())
      {
        DrainStops(old(M.Queue(View())), published, M.Queue(View()), |w|);
        var taken, out := PublishFront(bad[i], w[i]);
        if !taken {
          break;
        }
        DrainGoesOn(old(M.Queue(View())), published, out, M.Queue(View()), |w|);
        published := published + [out];
      }
      DrainEnds(old(M.Queue(View())), published, M.Queue(View()), |w|);
    }
  }

  // What has been published of q0 when q is left, of a drain of at most `limit` records.
  ghost predicate Drained(q0: seq<Rec>, published: seq<Rec>, q: seq<Rec>, limit: nat) {
    && |published| <= limit && published + q == q0
    && |published| + Drainable(q, limit - |published|) == Drainable(q0, limit)
  }

  lemma DrainStarts(q: seq<Rec>, limit: nat)
    ensures Drained(q, [], q, limit)
  {
    assert [] + q == q;
  }

  lemma DrainGoesOn(q0: seq<Rec>, published: seq<Rec>, out: Rec, q: seq<Rec>, limit: nat)
    requires Drained(q0, published, [out] + q, limit) && out != [] && |published| < limit
    ensures Drained(q0, published + [out], q, limit)
  {
    assert ([out] + q)[1..] == q;
    assert published + [out] + q == published + ([out] + q);
  }

  lemma DrainStops(q0: seq<Rec>, published: seq<Rec>, q: seq<Rec>, limit: nat)
    requires Drained(q0, published, q, limit)
    ensures q == [] || q[0] == [] ==> |published| == Drainable(q0, limit)
  {
  }

  lemma DrainEnds(q0: seq<Rec>, published: seq<Rec>, q: seq<Rec>, limit: nat)
    requires Drained(q0, published, q, limit)
    ensures |published| <= Drainable(q0, limit) && published == q0[..|published|] && q == q0[|published|..]
    ensures |published| == limit ==> |published| == Drainable(q0, limit)
  {
  }

  lemma PeekLeavesDisk(v: M.State, bad: map<nat, int>)
    ensures M.Peek(v, PAYLOAD_MAX + 1, bad).0.disk == v.disk
  {
    M.PeekBalance(v, PAYLOAD_MAX + 1, bad);
  }

  lemma OutcomeIsPlausible(d: seq<Slot>, v: M.State, w: DriverWrite)
    requires |d| > 0 && v.disk == Cells(d)
    ensures M.PlausibleCommit(v, CommitOutcome(d[Residue(v.head, |d|)], w))
  {
    CellsAt(d, Residue(v.head, |d|));
    hide CellOf;
  }

  /** Power loss during a push on real sectors, in any state that a run with failing writes can
      reach and with no assumption on the checksum: the queue with room made is recovered whole
      and in order, between what failed commits left behind and one record in the slot written. */
  lemma PowerLossAfterErrors(d: seq<Slot>, s: M.State, json: Rec, l: Landed)
    requires |d| > 0 && s.disk == Cells(d) && M.Running(s) && s.tail < U32_MAX && |json| <= PAYLOAD_MAX
    ensures var i := Residue(s.tail, |d|);
      var c := CellOf(Torn(d[i], Record(s.tail, json), l));
      var b := M.Boot(Cells(d[i := Torn(d[i], Record(s.tail, json), l)]));
      && M.Steady(b)
      && M.Queue(b) == M.EvictedBack(s, c)
                       + Live(s.disk, PastWrite(s.disk, s.tail), Kept(s.disk, s.head, s.tail))
                       + M.Room(s) + M.NewArrived(s, c)
  {
    hide CellOf, Record, Torn, Cells;
    var i := Residue(s.tail, |d|);
    var t := Torn(d[i], Record(s.tail, json), l);
    CellsUpdate(d, i, t);
    CellsAt(d, i);
    TornHeaderCell(d[i], s.tail, json, l);
    M.CrashDuringPushAfterErrors(s, CellOf(t));
  }

  /** Power loss during a push on real sectors: `d` is the disk before the write, and any
      subset of the three sectors of the new record replaces those of its slot.  A reboot
      recovers the queue with room made for the record, then the record if it arrived whole,
      and the evicted record first if its header sector survived. */
  lemma PowerLossDuringPush(d: seq<Slot>, s: M.State, json: Rec, l: Landed)
    requires |d| > 0 && s.disk == Cells(d) && M.Steady(s) && s.tail < U32_MAX && |json| <= PAYLOAD_MAX
    requires TearDetected(d[Residue(s.tail, |d|)], Record(s.tail, json), l)
    ensures var i := Residue(s.tail, |d|);
      var torn := Cells(d[i := Torn(d[i], Record(s.tail, json), l)]);
      var recovered := M.Queue(M.Boot(torn));
      && M.Steady(M.Boot(torn))
      && (recovered == M.Room(s) || recovered == M.Room(s) + [json] || recovered == M.Queue(s))
      && (l == ALL ==> recovered == M.Room(s) + [json])
      && (l == NONE ==> recovered == M.Queue(s))
  {
    hide CellOf, Record, Torn, TearDetected, Cells;
    var i := Residue(s.tail, |d|);
    var t := Torn(d[i], Record(s.tail, json), l);
    CellsUpdate(d, i, t);
    CellsAt(d, i);
    HeldIsCell(d[i]);
    TornCell(d[i], s.tail, json, l);
    M.CrashDuringPush(s, json, l, CellOf(t));
  }

  lemma HeldIsCell(s: Slot)
    ensures Holds(s) <==> CellOf(s).Cell?
    ensures Holds(s) ==> CellOf(s).seqno == SeqOf(s)
  {
  }

  /** A drain that is long enough publishes the whole queue if and only if no queued record is
      empty. */
  lemma {:induction false} LongDrainEmptiesIff(q: seq<Rec>, limit: nat)
    requires |q| <= limit
    ensures Drainable(q, limit) == |q| <==> forall i :: 0 <= i < |q| ==> q[i] != []
  {
    if q != [] {
      LongDrainEmptiesIff(q[1..], limit - 1);
      assert (forall i :: 0 <= i < |q| ==> q[i] != []) <==>
             q[0] != [] && forall i :: 0 <= i < |q| - 1 ==> q[1..][i] != [];
    }
  }
}
