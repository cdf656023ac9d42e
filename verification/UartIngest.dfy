/** One UART link of the gateway: the byte-at-a-time line assembler of the interrupt handler, and
    the wrapping byte ring in which complete telemetry lines wait for the main loop. */
module UartIngest {
  import opened Arith
  import opened Bytes
  import opened LineFormat

  // A byte queue over a fixed buffer: put and get move as many bytes as they can.
  class ByteRing {
    const buf: array<byte>
    var start: nat
    var used: nat
    ghost var contents: seq<byte>

    ghost predicate Valid()
      reads this, buf
    {
      && 0 < buf.Length && start < buf.Length && used <= buf.Length && |contents| == used
      && forall i :: 0 <= i < used ==> contents[i] == buf[Wrap(start + i)]
    }

    function Wrap(k: nat): nat {
      if k < buf.Length then k else k - buf.Length
    }

    constructor (size: nat)
      requires size > 0
      ensures Valid() && fresh(buf) && buf.Length == size && contents == []
    {
      buf := new byte[size](_ => 0);
      start, used, contents := 0, 0, [];
    }

    method Put(data: seq<byte>) returns (n: nat)
      requires Valid()
      modifies this`used, this`contents, buf
      ensures Valid() && n == Min(|data|, buf.Length - old(used)) && contents == old(contents) + data[..n]
    {
      n := Min(|data|, buf.Length - used);
      for i := 0 to n
        invariant Valid() && used == old(used) + i && contents == old(contents) + data[..i]
      {
        buf[Wrap(start + used)] := data[i];
        used := used + 1;
        contents := contents + [data[i]];
      }
    }

    method GetOne() returns (b: byte)
      requires Valid() && used > 0
      modifies this`start, this`used, this`contents
      ensures Valid() && used == old(used) - 1 && [b] + contents == old(contents)
    {
      b := buf[start];
      start := Wrap(start + 1);
      used := used - 1;
      contents := contents[1..];
    }

    method Get(n: nat) returns (data: seq<byte>)
      requires Valid()
      modifies this`start, this`used, this`contents
      ensures Valid() && |data| == Min(n, old(used)) && data + contents == old(contents)
    {
      data := [];
      while |data| < n && used > 0
        invariant Valid() && |data| <= n && |data| + used == old(used) && data + contents == old(contents)
        decreases used
      {
        hide *;
        ghost var before := contents;
        var b := GetOne();
        assert data + before == data + [b] + contents;
        data := data + [b];
      }
    }
  }

  datatype PopResult = Empty | TooSmall | Line(json: Rec)

  class Link {
    const line: array<byte>
    var lineLen: nat
    var overlong: bool
    const rb: ByteRing
    var linesOk: nat
    var linesDropped: nat

    ghost var seen: seq<byte>        // every byte received
    ghost var kept: seq<bool>        // which accepted payloads found room
    ghost var queue: seq<Rec>
    ghost var popped: seq<Rec>       // taken out by the main loop, delivered or discarded
    ghost var discarded: nat

    // The assembler's state is what the unfinished line u says it is.
    ghost predicate Assembling(u: seq<byte>)
      reads this, line
    {
      && line.Length == LINE_MAX && lineLen == Min(|u|, LINE_MAX - 1)
      && line[..lineLen] == u[..lineLen] && overlong == (|u| >= LINE_MAX)
    }

    ghost predicate QueueValid()
      reads this, line, rb, rb.buf
    {
      && rb.Valid() && rb.buf.Length == RING_SIZE && line != rb.buf && line.Length == LINE_MAX
      && Framable(queue) && Short(queue) && rb.contents == Frames(queue)
    }

    // Every event since start-up is in the queue, was popped, or is counted as dropped.
    ghost predicate Counted(events: seq<LineEvent>)
      reads this
    {
      && |kept| == |Payloads(events)| && popped + queue == Keep(Payloads(events), kept)
      && linesOk == |popped| + |queue| && linesOk <= |kept| && discarded <= |popped|
      && linesDropped == Overlongs(events) + (|kept| - linesOk) + discarded
    }

    ghost predicate Valid()
      reads this, line, rb, rb.buf
    {
      QueueValid() && Assembling(Unfinished(seen)) && Counted(Events(seen))
    }

    constructor ()
      ensures Valid() && seen == [] && queue == [] && linesOk == linesDropped == 0
      ensures fresh(line) && fresh(rb) && fresh(rb.buf)
    {
      line := new byte[LINE_MAX](_ => 0);
      rb := new ByteRing(RING_SIZE);
      lineLen, overlong, linesOk, linesDropped := 0, false, 0, 0;
      seen, kept, queue, popped, discarded := [], [], [], [], 0;
    }

    // A line has ended: queue it if it is a telemetry line that fits, and count it.
    method LineComplete(ghost u: seq<byte>, ghost events: seq<LineEvent>)
      requires QueueValid() && Assembling(u) && u != [] && Counted(events)
      modifies this`lineLen, this`overlong, this`linesOk, this`linesDropped, this`kept, this`queue, line, rb, rb.buf
      ensures QueueValid() && Assembling([]) && Counted(events + Classify(u))
      ensures var es := Classify(u);
        if es[0].Accepted? then
          var room := |Frames(old(queue))| + 2 + |es[0].json| <= RING_SIZE;
          kept == old(kept) + [room] && queue == (if room then old(queue) + [es[0].json] else old(queue))
        else kept == old(kept) && queue == old(queue)
    {
      hide Payloads, Overlongs, Keep, Frames;
      PayloadsAfter(events, u);
      if overlong {
        overlong := false;
        lineLen := 0;
        linesDropped := linesDropped + 1;
        return;
      }
      line[lineLen] := 0;
      assert line[..lineLen] == u;
      if lineLen <= |PREFIX| || line[..|PREFIX|] != PREFIX {
        lineLen := 0;
        return;
      }
      var json := line[|PREFIX|..lineLen];
      assert json == u[|PREFIX|..];
      ghost var room := RING_SIZE - rb.used >= 2 + |json|;
      KeepAfter(Payloads(events), kept, json, room);
      assert room ==> popped + (queue + [json]) == popped + queue + [json];
      Enqueue(json);
      kept := kept + [room];
      lineLen := 0;
    }

    // The record goes into the ring whole, or not at all.
    method Enqueue(json: Rec)
      requires QueueValid() && 0 < |json| < LINE_MAX
      modifies this`linesOk, this`linesDropped, this`queue, rb, rb.buf
      ensures QueueValid() && line[..] == old(line[..])
      ensures if |Frames(old(queue))| + 2 + |json| <= RING_SIZE
        then queue == old(queue) + [json] && linesOk == old(linesOk) + 1 && linesDropped == old(linesDropped)
        else queue == old(queue) && linesOk == old(linesOk) && linesDropped == old(linesDropped) + 1
    {
      hide Frames;
      FramesAppend(queue, json);
      if rb.buf.Length - rb.used < 2 + |json| {
        linesDropped := linesDropped + 1;
      } else {
        var _ := rb.Put(Le16(|json|));
        var _ := rb.Put(json);
        queue := queue + [json];
        linesOk := linesOk + 1;
      }
    }

    // What the payloads that arrived since `was` have made of the queue q.
    ghost predicate Admitted(q: seq<Rec>, was: seq<Rec>)
      reads this
    {
      var now := Payloads(Events(seen));
      Framable(q) && was <= now && queue == Admit(q, now[|was|..])
    }

    lemma NothingNew()
      requires Valid()
      ensures Admitted(queue, Payloads(Events(seen)))
    {
      AdmitNone(queue, Payloads(Events(seen)));
    }

    // One received byte; q is any earlier queue and `was` the payloads that had arrived by then.
    method Receive(c: byte, ghost q: seq<Rec>, ghost was: seq<Rec>)
      requires Valid() && Admitted(q, was)
      modifies this`lineLen, this`overlong, this`linesOk, this`linesDropped
      modifies this`kept, this`queue, this`seen, line, rb, rb.buf
      ensures Valid() && seen == old(seen) + [c] && Admitted(q, was)
      ensures |queue| <= |old(queue)| + 1
    {
      hide Payloads, Overlongs, Keep, Frames, Framable, Classify, Lines, Unfinished, Events, IsEol, Admit;
      ghost var u, events := Unfinished(seen), Events(seen);
      ArrivalAdmitted(queue, q, events, |was|, u);
      EventsAfter(seen, c);
      OneMoreByte(seen, c);
      EolBytes(c);
      if c == 10 || c == 13 {
        if lineLen > 0 || overlong {
          LineComplete(u, events);
        } else {
          EmptyLine(u);
          assert events + [] == events;
        }
      } else if lineLen < LINE_MAX - 1 {
        line[lineLen] := c;
        lineLen := lineLen + 1;
      } else {
        overlong := true;
      }
      seen := seen + [c];
    }

    /** The interrupt handler on one chunk.  The state depends on the bytes received and not on
        how they were chunked; every payload they complete is queued in order if there is room. */
    method Isr(chunk: seq<byte>)
      requires Valid()
      modifies this`lineLen, this`overlong, this`linesOk, this`linesDropped
      modifies this`kept, this`queue, this`seen, line, rb, rb.buf
      ensures Valid() && seen == old(seen) + chunk && Admitted(old(queue), Payloads(Events(old(seen))))
      ensures |queue| <= |old(queue)| + |chunk|
      // A whole line of at most 1023 bytes that starts with the prefix is queued without it, or
      // dropped for lack of room; any other is ignored, or dropped because it is overlong.
      ensures old(lineLen) == 0 && !old(overlong) && chunk != [] && OneLine(chunk) ==>
        var line := chunk[..|chunk| - 1];
        if 16 < |line| < 1024 && line[..16] == Ascii("IOTC-TELEMETRY: ") then
          if old(rb.used) + 2 + |line[16..]| <= 16384 then
            queue == old(queue) + [line[16..]] && linesOk == old(linesOk) + 1 && linesDropped == old(linesDropped)
          else queue == old(queue) && linesOk == old(linesOk) && linesDropped == old(linesDropped) + 1
        else
          && queue == old(queue) && linesOk == old(linesOk)
          && linesDropped == old(linesDropped) + if |line| >= 1024 then 1 else 0
    {
      hide *;
      ghost var was := Payloads(Events(seen));
      NothingNew();
      LinkState();
      if Unfinished(seen) == [] && OneLine(chunk) {
        TelemetryLine(chunk);
        LineAdmitted(seen, queue, chunk);
      }
      for i := 0 to |chunk|
        invariant Valid() && seen == old(seen) + chunk[..i] && Admitted(old(queue), was)
        invariant |queue| <= |old(queue)| + i
      {
        Receive(chunk[i], old(queue), was);
      }
      assert chunk[..|chunk|] == chunk;
      LinkState();
      QueueAdmitted(old(queue), was);
    }

    // What the invariant says of the counters, and of a link between two lines.
    lemma LinkState()
      requires Valid()
      ensures lineLen == 0 && !overlong ==> Unfinished(seen) == []
      ensures Framable(queue) && rb.used == |Frames(queue)| && linesOk == |popped| + |queue|
      ensures linesDropped == Overlongs(Events(seen)) + |Payloads(Events(seen))| - linesOk + discarded
    {
    }

    lemma QueueAdmitted(q: seq<Rec>, was: seq<Rec>)
      requires Admitted(q, was)
      ensures Framable(q) && was <= Payloads(Events(seen)) && queue == Admit(q, Payloads(Events(seen))[|was|..])
    {
    }

    // Throw away the next n bytes, 64 at a time, so that `rest` comes next.
    method Discard(n: nat, ghost rest: seq<byte>)
      requires rb.Valid() && n <= |rb.contents| && rb.contents[n..] == rest
      modifies rb
      ensures rb.Valid() && rb.contents == rest
    {
      var r: nat := n;
      while r > 0
        invariant r <= n && rb.Valid() && |rb.contents| >= r && rb.contents[r..] == rest
      {
        ghost var before := rb.contents;
        var sink := rb.Get(Min(r, 64));
        assert before[r..] == (sink + rb.contents)[r..] == rb.contents[r - |sink|..];
        r := r - |sink|;
      }
      assert rb.contents[0..] == rb.contents;
    }

    /** Pop the oldest line: it reports an empty queue exactly when there is none, delivers the
        oldest payload, or discards exactly that one when the buffer is too small for it. */
    method Pop(bufSize: nat) returns (r: PopResult)
      requires Valid()
      modifies this`linesDropped, this`queue, this`popped, this`discarded, rb
      ensures Valid()
      ensures r == Empty <==> old(queue) == []
      ensures discarded == old(discarded) + if r == TooSmall then 1 else 0
      ensures old(queue) == [] ==> queue == [] && popped == old(popped) && linesDropped == old(linesDropped)
      ensures old(queue) != [] ==>
        var front := old(queue)[0];
        && queue == old(queue)[1..] && popped == old(popped) + [front]
        && (if |front| < bufSize then r == Line(front) && linesDropped == old(linesDropped)
            else r == TooSmall && linesDropped == old(linesDropped) + 1)
      // A buffer of one line is never too small, so that no pop ends the caller's loop early.
      ensures bufSize >= LINE_MAX ==> r != TooSmall
    {
      hide Payloads, Overlongs, Keep, Lines, Unfinished, Events, Frames, Framable, Le16;
      FramesEmpty(queue);
      if rb.used < 2 {
        return Empty;
      }
      FramesFront(queue);
      ghost var front, rest := queue[0], queue[1..];
      ghost var all := rb.contents;
      assert popped + [front] + rest == popped + queue;
      var lenBytes := rb.Get(2);
      assert lenBytes == all[..2];
      Le16At(|front|, lenBytes, 0);
      var len := GetLe16(lenBytes, 0);
      assert rb.contents == front + Frames(rest);
      if len >= bufSize {
        Discard(len, Frames(rest));
        linesDropped := linesDropped + 1;
        discarded := discarded + 1;
        popped, queue := popped + [front], rest;
        return TooSmall;
      }
      var json := rb.Get(len);
      assert json + rb.contents == front + Frames(rest);
      assert json == (json + rb.contents)[..len] == (front + Frames(rest))[..len];
      assert json == front;
      popped, queue := popped + [front], rest;
      return Line(json);
    }
  }

  lemma TelemetryLine(chunk: seq<byte>)
    requires OneLine(chunk)
    ensures chunk != []
    ensures var line := chunk[..|chunk| - 1];
      IsTelemetry(line) <==> 16 < |line| < 1024 && line[..16] == Ascii("IOTC-TELEMETRY: ")
  {
  }

  // How a finished line u changes what has been admitted.
  lemma ArrivalAdmitted(queue: seq<Rec>, q: seq<Rec>, events: seq<LineEvent>, k: nat, u: seq<byte>)
    requires Framable(queue) && Framable(q) && k <= |Payloads(events)| && queue == Admit(q, Payloads(events)[k..])
    ensures var es, now := Classify(u), Payloads(events + Classify(u));
      && Payloads(events) <= now
      && (if es != [] && es[0].Accepted? && 0 < |es[0].json| <= U16_MAX then
            Admit(q, now[k..])
            == if |Frames(queue)| + 2 + |es[0].json| <= RING_SIZE then queue + [es[0].json] else queue
          else now == Payloads(events))
  {
    PayloadsAfter(events, u);
    hide Payloads, Frames, Admit;
    if Classify(u) != [] && Classify(u)[0].Accepted? {
      AdmitNext(q, Payloads(events), k, Classify(u)[0].json);
    }
  }
}
