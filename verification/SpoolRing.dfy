/** The ring of slots as a reader sees it: each cell is blank, or carries a sequence number
    and a body that is absent when the checksum fails.  This module knows nothing of bytes. */
module SpoolRing {
  import opened Arith
  import opened Bytes

  // Three 512-byte sectors less the header and one byte for the reader's terminator.
  const PAYLOAD_MAX := 3 * 512 - 16 - 1

  datatype Body = Bad | Good(rec: Rec)
  datatype Cell = Blank | Cell(seqno: u32, body: Body)
  type Ring = d: seq<Cell> | |d| > 0 witness [Blank]

  function At(d: Ring, q: nat): Cell {
    d[Residue(q, |d|)]
  }

  function Put(d: Ring, q: nat, c: Cell): (d': Ring)
    ensures |d'| == |d|
  {
    d[Residue(q, |d|) := c]
  }

  predicate IntactAt(d: Ring, q: nat) {
    At(d, q).Cell? && At(d, q).seqno == q && At(d, q).body.Good?
  }

  function One(d: Ring, q: nat): (r: seq<Rec>)
    ensures |r| == if IntactAt(d, q) then 1 else 0
  {
    if IntactAt(d, q) then [At(d, q).body.rec] else []
  }

  // The records a reader finds at sequence numbers a, a+1, .., b-1, in that order.
  function Live(d: Ring, a: nat, b: nat): seq<Rec>
    decreases b - a
  {
    if a >= b then [] else One(d, a) + Live(d, a + 1, b)
  }

  // Positions in ascending order, below a bound.
  ghost predicate Increasing(s: seq<nat>, bound: nat) {
    (forall i, j :: 0 <= i < j < |s| ==> s[i] < s[j]) && forall i :: 0 <= i < |s| ==> s[i] < bound
  }

  // The positions `os` of `all` hold the records q: q is a subsequence of `all`.
  ghost predicate Names(os: seq<nat>, q: seq<Rec>, all: seq<Rec>) {
    |os| == |q| && Increasing(os, |all|) && forall i :: 0 <= i < |os| ==> q[i] == all[os[i]]
  }

  // ---------- interrupted writes ----------

  // Which of the three sectors of a write reached the medium.
  datatype Landed = Landed(l0: bool, l1: bool, l2: bool)
  const ALL := Landed(true, true, true)
  const NONE := Landed(false, false, false)

  // A slot whose write of record q was interrupted shows the old header or the new one.
  predicate OldOrNewHeader(before: Cell, q: nat, c: Cell) {
    c.Cell? ==> c.seqno == q || (before.Cell? && c.seqno == before.seqno)
  }

  // The same under a checksum that detects torn bodies.
  predicate TornOutcome(before: Cell, q: nat, rec: Rec, l: Landed, c: Cell) {
    && (l == ALL ==> q <= U32_MAX && c == Cell(q, Good(rec)))
    && (l == NONE ==> c == before)
    && (l.l0 ==> q <= U32_MAX && (c == Cell(q, Good(rec)) || c == Cell(q, Bad)))
    && (!l.l0 ==> c == before || (before.Cell? && c == Cell(before.seqno, Bad)))
  }

  // ---------- the boot scan ----------

  datatype Scan = Scan(valid: nat, maxSeq: u32, minSeq: u32)

  function ScanOne(s: Scan, c: Cell): Scan {
    if c.Blank? then s
    else Scan(s.valid + 1,
              if c.seqno > s.maxSeq then c.seqno else s.maxSeq,
              if c.seqno < s.minSeq then c.seqno else s.minSeq)
  }

  function ScanCells(d: seq<Cell>): Scan {
    if d == [] then Scan(0, 0, U32_MAX) else ScanOne(ScanCells(d[..|d| - 1]), d[|d| - 1])
  }

  // The scan, slot by slot.
  lemma ScanGrows(d: seq<Cell>, i: nat)
    requires i < |d|
    ensures ScanCells(d[..i + 1]) == ScanOne(ScanCells(d[..i]), d[i])
  {
    assert d[..i + 1][..i] == d[..i];
  }

  lemma ScanEnds(d: seq<Cell>)
    ensures ScanCells(d[..0]) == Scan(0, 0, U32_MAX) && ScanCells(d[..|d|]) == ScanCells(d)
  {
    assert d[..|d|] == d;
  }

  // The head and tail chosen from a finished scan of n slots.
  function HeadOf(s: Scan, n: nat): nat {
    if s.valid == 0 then 0
    else
      var floor := if s.maxSeq >= n - 1 then s.maxSeq - (n - 1) else 0;
      if s.minSeq > floor then s.minSeq else floor
  }

  function TailOf(s: Scan): nat {
    if s.valid == 0 || s.maxSeq == U32_MAX then 0 else s.maxSeq + 1
  }

  function BootHead(d: Ring): nat {
    HeadOf(ScanCells(d), |d|)
  }

  function BootTail(d: Ring): nat {
    TailOf(ScanCells(d))
  }

  // What boot, then peek and commit until empty, delivers.
  function Recovered(d: Ring): seq<Rec> {
    Live(d, BootHead(d), BootTail(d))
  }

  // ---------- invariants ----------

  /** Every header on the disk sits in its own slot, within one ring of the tail.  The
      number `tail` itself may be there after a push whose write failed. */
  ghost predicate Located(d: Ring, tail: nat) {
    forall i :: 0 <= i < |d| && d[i].Cell? ==>
      Residue(d[i].seqno, |d|) == i && d[i].seqno <= tail <= d[i].seqno + |d| && d[i].seqno < U32_MAX
  }

  ghost predicate InWindow(d: Ring, head: nat, tail: nat) {
    head <= tail <= U32_MAX && tail - head <= |d| && Located(d, tail)
  }

  /** No header at or above the tail, and no intact record below the head. */
  ghost predicate Clean(d: Ring, head: nat, tail: nat) {
    forall i :: 0 <= i < |d| && d[i].Cell? ==>
      d[i].seqno < tail && (d[i].body.Good? ==> head <= d[i].seqno)
  }

  // ---------- the records in a window ----------

  lemma {:induction false} LiveSplit(d: Ring, a: nat, m: nat, b: nat)
    requires a <= m <= b
    ensures Live(d, a, b) == Live(d, a, m) + Live(d, m, b)
    decreases m - a
  {
    if a < m {
      LiveSplit(d, a + 1, m, b);
      assert Live(d, a, b) == One(d, a) + (Live(d, a + 1, m) + Live(d, m, b));
    }
  }

  lemma {:induction false} LiveFrame(d: Ring, d': Ring, a: nat, b: nat)
    requires forall q :: a <= q < b ==> At(d, q) == At(d', q)
    ensures Live(d, a, b) == Live(d', a, b)
    decreases b - a
  {
    if a < b {
      assert At(d, a) == At(d', a);
      LiveFrame(d, d', a + 1, b);
    }
  }

  lemma {:induction false} LiveNone(d: Ring, a: nat, b: nat)
    requires forall q :: a <= q < b ==> !IntactAt(d, q)
    ensures Live(d, a, b) == []
    decreases b - a
  {
    if a < b {
      assert !IntactAt(d, a);
      LiveNone(d, a + 1, b);
    }
  }

  // Only the part [a, b) of a window holds anything.
  lemma LiveTrim(d: Ring, lo: nat, a: nat, b: nat, hi: nat)
    requires lo <= a <= b <= hi
    requires forall q :: lo <= q < a || b <= q < hi ==> !IntactAt(d, q)
    ensures Live(d, lo, hi) == Live(d, a, b)
  {
    LiveSplit(d, lo, a, hi);
    LiveSplit(d, a, b, hi);
    LiveNone(d, lo, a);
    LiveNone(d, b, hi);
  }

  // Rewriting q's slot leaves a window alone that excludes q and fits in q's lap.
  lemma LiveElsewhere(d: Ring, q: nat, c: Cell, a: nat, b: nat)
    requires q < a + |d| && b <= q + |d| && (b <= q || q < a)
    ensures Live(Put(d, q, c), a, b) == Live(d, a, b)
  {
    forall r | a <= r < b
      ensures At(d, r) == At(Put(d, q, c), r)
    {
      if r < q { ResiduesDiffer(r, q, |d|); } else { ResiduesDiffer(q, r, |d|); }
    }
    LiveFrame(d, Put(d, q, c), a, b);
  }

  lemma LiveOne(d: Ring, q: nat)
    ensures Live(d, q, q + 1) == One(d, q)
  {
    assert Live(d, q + 1, q + 1) == [];
  }

  lemma LiveInThree(d: Ring, lo: nat, a: nat, b: nat)
    requires lo <= a <= b
    ensures Live(d, lo, b + 1) == Live(d, lo, a) + Live(d, a, b) + One(d, b)
  {
    LiveSplit(d, lo, a, b + 1);
    LiveSplit(d, a, b, b + 1);
    LiveOne(d, b);
    assert Live(d, a, b + 1) == Live(d, a, b) + One(d, b);
  }

  // ---------- recovery ----------

  lemma {:induction false} ScanBounds(d: seq<Cell>)
    ensures var s := ScanCells(d);
      && (forall i :: 0 <= i < |d| && d[i].Cell? ==> s.minSeq <= d[i].seqno <= s.maxSeq)
      && (s.valid == 0 ==> forall i :: 0 <= i < |d| ==> d[i].Blank?)
      && (s.valid > 0 ==> exists i :: 0 <= i < |d| && d[i].Cell? && d[i].seqno == s.maxSeq)
      && (s.valid > 0 ==> exists i :: 0 <= i < |d| && d[i].Cell? && d[i].seqno == s.minSeq)
      && (s.valid == 0 ==> s == Scan(0, 0, U32_MAX))
  {
    if d != [] {
      var k := |d| - 1;
      ScanBounds(d[..k]);
      var s, s' := ScanCells(d[..k]), ScanCells(d);
      assert forall i :: 0 <= i < k ==> d[..k][i] == d[i];
      if s.valid > 0 {
        var i :| 0 <= i < k && d[..k][i].Cell? && d[..k][i].seqno == s.maxSeq;
        var j :| 0 <= j < k && d[..k][j].Cell? && d[..k][j].seqno == s.minSeq;
        assert d[i].seqno == s.maxSeq && d[j].seqno == s.minSeq;
      }
      assert d[k].Cell? ==> d[k].seqno <= s'.maxSeq && s'.minSeq <= d[k].seqno;
    }
  }

  // No two headers are a whole lap apart.
  lemma HeadersWithinOneLap(d: Ring, tail: nat, i: nat, j: nat)
    requires Located(d, tail)
    requires i < |d| && j < |d| && d[i].Cell? && d[j].Cell?
    ensures d[i].seqno < d[j].seqno + |d|
  {
    // Only tail - |d| and tail are that far apart, and they share a slot.
    var q := d[i].seqno;
    assert q >= |d| ==> Residue(q, |d|) == Residue(q - |d|, |d|);
  }

  // The scan's window covers every header, and no more than one lap.
  lemma BootWindow(d: Ring, tail: nat)
    requires tail <= U32_MAX && Located(d, tail)
    ensures var h, t := BootHead(d), BootTail(d);
      && h <= t <= h + |d| && t <= tail + 1 && t <= U32_MAX
      && (forall i :: 0 <= i < |d| && d[i].Cell? ==> h <= d[i].seqno < t <= d[i].seqno + |d|)
      && (h < t ==> tail <= h + |d|)
      && (h == t ==> t == 0)
  {
    ScanBounds(d);
    var s := ScanCells(d);
    if s.valid > 0 {
      var i :| 0 <= i < |d| && d[i].Cell? && d[i].seqno == s.maxSeq;
      var j :| 0 <= j < |d| && d[j].Cell? && d[j].seqno == s.minSeq;
      HeadersWithinOneLap(d, tail, i, j);
      forall k | 0 <= k < |d| && d[k].Cell?
        ensures s.maxSeq < d[k].seqno + |d|
      {
        HeadersWithinOneLap(d, tail, i, k);
      }
    }
  }

  function LapStart(d: Ring, tail: nat): nat {
    if tail < |d| then 0 else tail - |d|
  }

  /** The scan finds every header: its window is clean, and reading it yields exactly what
      reading the whole last lap would yield. */
  lemma RecoveryScan(d: Ring, tail: nat)
    requires tail <= U32_MAX && Located(d, tail)
    ensures InWindow(d, BootHead(d), BootTail(d)) && Clean(d, BootHead(d), BootTail(d))
    ensures Recovered(d) == Live(d, LapStart(d, tail), tail + 1)
  {
    BootWindow(d, tail);
    var h, t, lo := BootHead(d), BootTail(d), LapStart(d, tail);
    if h == t {
      assert forall i :: 0 <= i < |d| ==> d[i].Blank?;
      LiveNone(d, lo, tail + 1);
    } else {
      LiveTrim(d, lo, h, t, tail + 1);
    }
  }

  /** In a clean state a reboot changes nothing: the queue recovered is the queue in RAM. */
  lemma RebootKeepsTheQueue(d: Ring, head: nat, tail: nat)
    requires InWindow(d, head, tail) && Clean(d, head, tail)
    ensures Recovered(d) == Live(d, head, tail)
  {
    RecoveryScan(d, tail);
    LiveTrim(d, LapStart(d, tail), head, tail, tail + 1);
  }

  // ---------- the three writes ----------

  // Appending to a window with a free slot: one more record at the end, nothing else moves.
  lemma AppendCell(d: Ring, head: nat, tail: nat, rec: Rec)
    requires InWindow(d, head, tail) && tail - head < |d| && tail < U32_MAX
    ensures var d' := Put(d, tail, Cell(tail, Good(rec)));
      && Live(d', head, tail + 1) == Live(d, head, tail) + [rec]
      && InWindow(d', head, tail + 1)
      && (Clean(d, head, tail) ==> Clean(d', head, tail + 1))
  {
    var d' := Put(d, tail, Cell(tail, Good(rec)));
    LiveElsewhere(d, tail, Cell(tail, Good(rec)), head, tail);
    LiveSplit(d', head, tail, tail + 1);
    LiveOne(d', tail);
    forall i | 0 <= i < |d'| && d'[i].Cell?
      ensures tail + 1 <= d'[i].seqno + |d'|
    {
      if i != Residue(tail, |d|) && d[i].seqno + |d| == tail {
        assert false;
      }
    }
  }

  // Dropping the front of a window whose front is intact.
  lemma DropFront(d: Ring, head: nat, tail: nat)
    requires head < tail && IntactAt(d, head)
    ensures Live(d, head, tail) == [At(d, head).body.rec] + Live(d, head + 1, tail)
  {
  }

  // Blanking the front slot removes exactly the front record.
  lemma BlankFront(d: Ring, head: nat, tail: nat)
    requires InWindow(d, head, tail) && head < tail
    ensures var d' := Put(d, head, Blank);
      && Live(d', head + 1, tail) == Live(d, head + 1, tail)
      && InWindow(d', head + 1, tail)
      && (Clean(d, head, tail) ==> Clean(d', head + 1, tail))
  {
    LiveElsewhere(d, head, Blank, head + 1, tail);
    forall i | 0 <= i < |d| && Put(d, head, Blank)[i].Cell?
      ensures d[i].seqno != head
    {
    }
  }

  lemma LocatedMidWrite(d: Ring, tail: nat, c: Cell)
    requires Located(d, tail) && tail < U32_MAX && OldOrNewHeader(At(d, tail), tail, c)
    ensures Located(Put(d, tail, c), tail)
  {
  }

  // The oldest record a new push may overwrite, and the ones that stay in any case.
  function Kept(d: Ring, head: nat, tail: nat): nat {
    if tail == head + |d| then head + 1 else head
  }

  // The first sequence number whose slot a write of number `tail` leaves alone.
  function PastWrite(d: Ring, tail: nat): nat {
    if tail < |d| then 0 else tail - |d| + 1
  }

  // Reading a whole lap, from the old number of the slot being written to its new number.
  lemma LiveAroundWrite(d: Ring, tail: nat, c: Cell)
    ensures var d' := Put(d, tail, c);
      Live(d', LapStart(d, tail), tail + 1)
      == (if tail < |d| then [] else One(d', tail - |d|)) + Live(d, PastWrite(d, tail), tail) + One(d', tail)
  {
    hide Residue, Put, At, One;
    var d', from := Put(d, tail, c), PastWrite(d, tail);
    LiveElsewhere(d, tail, c, from, tail);
    LiveSplit(d', from, tail, tail + 1);
    LiveOne(d', tail);
    if tail >= |d| {
      assert Live(d', from - 1, tail + 1) == One(d', from - 1) + Live(d', from, tail + 1);
    }
  }

  /** What a reboot in the middle of a push recovers: the old occupant of the slot if it is
      still intact, all the records in between, and the new record if it is intact. */
  lemma RecoveredMidWrite(d: Ring, tail: nat, c: Cell)
    requires Located(d, tail) && tail < U32_MAX && OldOrNewHeader(At(d, tail), tail, c)
    ensures var d' := Put(d, tail, c);
      Recovered(d')
      == (if tail < |d| then [] else One(d', tail - |d|)) + Live(d, PastWrite(d, tail), tail) + One(d', tail)
  {
    LocatedMidWrite(d, tail, c);
    RecoveryScan(Put(d, tail, c), tail);
    LiveAroundWrite(d, tail, c);
  }

  // Between the slot being written and the records to keep, a clean ring holds nothing.
  lemma NothingStale(d: Ring, head: nat, tail: nat)
    requires InWindow(d, head, tail) && Clean(d, head, tail)
    ensures Live(d, PastWrite(d, tail), Kept(d, head, tail)) == []
  {
    LiveNone(d, PastWrite(d, tail), Kept(d, head, tail));
  }
}
