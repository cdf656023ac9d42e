/** What a UART byte stream means, said without a state machine: the lines of the stream, the
    telemetry payloads among them, and the length-framed form in which they are queued. */
module LineFormat {
  import opened Bytes

  const LINE_MAX := 1024
  const RING_SIZE := 16 * 1024

  // "IOTC-TELEMETRY: "
  const PREFIX: seq<byte> := [73, 79, 84, 67, 45, 84, 69, 76, 69, 77, 69, 84, 82, 89, 58, 32]

  // ---------- lines ----------

  predicate IsEol(c: byte) {
    c == 10 || c == 13
  }

  // The position of the first line terminator, or the length if there is none.
  function FirstEol(s: seq<byte>): (i: nat)
    ensures i <= |s| && (i < |s| ==> IsEol(s[i])) && forall j :: 0 <= j < i ==> !IsEol(s[j])
  {
    if s == [] || IsEol(s[0]) then 0 else 1 + FirstEol(s[1..])
  }

  function Lines(s: seq<byte>): seq<seq<byte>> {
    var i := FirstEol(s);
    if i == |s| then [] else [s[..i]] + Lines(s[i + 1..])
  }

  function Unfinished(s: seq<byte>): seq<byte> {
    var i := FirstEol(s);
    if i == |s| then s else Unfinished(s[i + 1..])
  }

  datatype LineEvent = Accepted(json: Rec) | Overlong | Ignored

  // Empty lines are no event at all.
  function Classify(line: seq<byte>): seq<LineEvent> {
    if line == [] then []
    else if |line| >= LINE_MAX then [Overlong]
    else if |PREFIX| < |line| && PREFIX <= line then [Accepted(line[|PREFIX|..])]
    else [Ignored]
  }

  function ClassifyAll(lines: seq<seq<byte>>): seq<LineEvent> {
    if lines == [] then [] else ClassifyAll(lines[..|lines| - 1]) + Classify(lines[|lines| - 1])
  }

  function Events(s: seq<byte>): seq<LineEvent> {
    ClassifyAll(Lines(s))
  }

  lemma {:induction false} FirstEolAfter(s: seq<byte>, c: byte)
    ensures FirstEol(s + [c]) == if FirstEol(s) < |s| then FirstEol(s) else if IsEol(c) then |s| else |s| + 1
  {
    if s == [] {
      assert (s + [c])[1..] == [];
    } else {
      assert (s + [c])[1..] == s[1..] + [c];
      FirstEolAfter(s[1..], c);
    }
  }

  // A stream without a terminator so far.
  lemma FirstTerminator(s: seq<byte>, c: byte)
    requires FirstEol(s) == |s|
    ensures Lines(s) == [] && Unfinished(s) == s
    ensures Lines(s + [c]) == if IsEol(c) then [s] else []
    ensures Unfinished(s + [c]) == if IsEol(c) then [] else s + [c]
  {
    FirstEolAfter(s, c);
    hide FirstEol;
    var t := s + [c];
    if IsEol(c) {
      assert t[..|s|] == s && t[|s| + 1..] == [];
      NothingYet();
      assert Lines(t) == [s] + Lines([]);
    }
  }

  lemma NothingYet()
    ensures Lines([]) == [] && Unfinished([]) == []
  {
  }

  // One more byte ends the unfinished line, or lengthens it.
  lemma {:induction false} OneMoreByte(s: seq<byte>, c: byte)
    ensures Lines(s + [c]) == if IsEol(c) then Lines(s) + [Unfinished(s)] else Lines(s)
    ensures Unfinished(s + [c]) == if IsEol(c) then [] else Unfinished(s) + [c]
    decreases |s|
  {
    hide FirstEol;
    var i, t := FirstEol(s), s + [c];
    if i == |s| {
      FirstTerminator(s, c);
    } else {
      var rest := s[i + 1..];
      FirstEolAfter(s, c);
      assert t[..i] == s[..i] && t[i + 1..] == rest + [c];
      OneMoreByte(rest, c);
      assert Lines(t) == [s[..i]] + Lines(rest + [c]);
      assert Lines(s) == [s[..i]] + Lines(rest);
    }
  }

  // The stream without its terminators, their number, and the lines put together again.
  function Text(s: seq<byte>): seq<byte> {
    if s == [] then [] else Text(s[..|s| - 1]) + if IsEol(s[|s| - 1]) then [] else [s[|s| - 1]]
  }

  function Eols(s: seq<byte>): nat {
    if s == [] then 0 else Eols(s[..|s| - 1]) + if IsEol(s[|s| - 1]) then 1 else 0
  }

  function Flatten(lines: seq<seq<byte>>): seq<byte> {
    if lines == [] then [] else Flatten(lines[..|lines| - 1]) + lines[|lines| - 1]
  }

  predicate NoEol(line: seq<byte>) {
    forall i :: 0 <= i < |line| ==> !IsEol(line[i])
  }

  /** The lines and the unfinished rest are the stream cut at every terminator and nowhere else. */
  lemma {:induction false} LinesAreTheStream(s: seq<byte>)
    ensures Flatten(Lines(s)) + Unfinished(s) == Text(s) && |Lines(s)| == Eols(s)
    ensures NoEol(Unfinished(s)) && forall k :: 0 <= k < |Lines(s)| ==> NoEol(Lines(s)[k])
    decreases |s|
  {
    hide FirstEol, IsEol, Lines, Unfinished;
    if s == [] {
      NothingYet();
    } else {
      var t, c := s[..|s| - 1], s[|s| - 1];
      assert s == t + [c];
      LinesAreTheStream(t);
      OneMoreByte(t, c);
      if IsEol(c) {
        assert Lines(s)[..|Lines(s)| - 1] == Lines(t);
        assert Text(s) == Text(t);
      }
    }
  }

  /** Every non-empty line is exactly one event: accepted, overlong or ignored. */
  lemma {:induction false} OneEventPerLine(lines: seq<seq<byte>>)
    ensures |ClassifyAll(lines)| == NonEmpty(lines)
    ensures |Payloads(ClassifyAll(lines))| + Overlongs(ClassifyAll(lines)) <= NonEmpty(lines)
    decreases |lines|
  {
    if lines != [] {
      OneEventPerLine(lines[..|lines| - 1]);
      PayloadsAfter(ClassifyAll(lines[..|lines| - 1]), lines[|lines| - 1]);
    }
  }

  function NonEmpty(lines: seq<seq<byte>>): nat {
    if lines == [] then 0 else NonEmpty(lines[..|lines| - 1]) + if lines[|lines| - 1] == [] then 0 else 1
  }

  lemma EventsAfter(s: seq<byte>, c: byte)
    ensures Events(s + [c]) == if IsEol(c) then Events(s) + Classify(Unfinished(s)) else Events(s)
  {
    OneMoreByte(s, c);
    var lines := Lines(s) + [Unfinished(s)];
    assert lines[..|lines| - 1] == Lines(s);
  }

  lemma EolBytes(c: byte)
    ensures IsEol(c) <==> c == 10 || c == 13
  {
  }

  lemma EmptyLine(line: seq<byte>)
    requires |line| == 0
    ensures line == [] && Classify(line) == []
  {
  }

  // ---------- the accepted payloads ----------

  function Payloads(events: seq<LineEvent>): seq<Rec> {
    if events == [] then []
    else
      var last := events[|events| - 1];
      var before := Payloads(events[..|events| - 1]);
      if last.Accepted? then before + [last.json] else before
  }

  function Overlongs(events: seq<LineEvent>): nat {
    if events == [] then 0
    else Overlongs(events[..|events| - 1]) + if events[|events| - 1].Overlong? then 1 else 0
  }

  lemma PayloadsAfter(events: seq<LineEvent>, line: seq<byte>)
    ensures var es := Classify(line);
      && Payloads(events + es)
         == (if es != [] && es[0].Accepted? then Payloads(events) + [es[0].json] else Payloads(events))
      && Overlongs(events + es) == Overlongs(events) + (if es != [] && es[0].Overlong? then 1 else 0)
  {
    var es := Classify(line);
    if es == [] {
      assert events + es == events;
    } else {
      assert (events + es)[..|events + es| - 1] == events;
    }
  }

  // The elements that are kept, in order.
  function Keep(all: seq<Rec>, kept: seq<bool>): seq<Rec>
    requires |all| == |kept|
  {
    if all == [] then []
    else
      var before := Keep(all[..|all| - 1], kept[..|all| - 1]);
      if kept[|all| - 1] then before + [all[|all| - 1]] else before
  }

  lemma KeepAfter(all: seq<Rec>, kept: seq<bool>, r: Rec, k: bool)
    requires |all| == |kept|
    ensures Keep(all + [r], kept + [k]) == if k then Keep(all, kept) + [r] else Keep(all, kept)
  {
    assert (all + [r])[..|all|] == all && (kept + [k])[..|all|] == kept;
  }

  // ---------- one whole line ----------

  // A line without a terminator in it, and its terminator.
  predicate OneLine(chunk: seq<byte>) {
    && chunk != [] && chunk[|chunk| - 1] in {10, 13}
    && forall i :: 0 <= i < |chunk| - 1 ==> chunk[i] !in {10, 13}
  }

  // A line that the main loop gets to see.
  predicate IsTelemetry(line: seq<byte>) {
    16 < |line| < 1024 && line[..16] == Ascii("IOTC-TELEMETRY: ")
  }

  lemma PrefixText()
    ensures PREFIX == Ascii("IOTC-TELEMETRY: ") && |PREFIX| == 16
  {
  }

  // What kind of line it is, told by its text.
  lemma LineKinds(line: seq<byte>)
    ensures IsTelemetry(line) ==> Classify(line) == [Accepted(line[16..])]
    ensures !IsTelemetry(line) && |line| < 1024 ==> Classify(line) in {[], [Ignored]}
    ensures |line| >= 1024 ==> Classify(line) == [Overlong]
  {
    PrefixText();
  }

  // Bytes that are no terminator lengthen the unfinished line and are no event.
  lemma {:induction false} LineGrows(s: seq<byte>, line: seq<byte>)
    requires Unfinished(s) == [] && forall i :: 0 <= i < |line| ==> line[i] !in {10, 13}
    ensures Unfinished(s + line) == line && Events(s + line) == Events(s)
  {
    hide Unfinished, Events, IsEol;
    if line == [] {
      assert s + line == s;
    } else {
      var before, c := line[..|line| - 1], line[|line| - 1];
      assert s + line == s + before + [c];
      LineGrows(s, before);
      EolBytes(c);
      OneMoreByte(s + before, c);
      EventsAfter(s + before, c);
    }
  }

  // A whole line after a finished one is its own event and no other.
  lemma LineEvents(s: seq<byte>, chunk: seq<byte>)
    requires Unfinished(s) == [] && OneLine(chunk)
    ensures Events(s + chunk) == Events(s) + Classify(chunk[..|chunk| - 1])
  {
    hide Unfinished, Events, IsEol, Classify;
    var line, c := chunk[..|chunk| - 1], chunk[|chunk| - 1];
    assert s + chunk == s + line + [c];
    LineGrows(s, line);
    EolBytes(c);
    EventsAfter(s + line, c);
  }

  // ---------- length-framed records ----------

  predicate Framable(q: seq<Rec>) {
    forall i :: 0 <= i < |q| ==> 0 < |q[i]| <= U16_MAX
  }

  // Every payload fits a buffer of one line.
  predicate Short(q: seq<Rec>) {
    forall i :: 0 <= i < |q| ==> |q[i]| < LINE_MAX
  }

  function Frames(q: seq<Rec>): (s: seq<byte>)
    requires Framable(q)
    ensures |q| > 0 ==> |s| > 2
  {
    if q == [] then [] else Le16(|q[0]|) + q[0] + Frames(q[1..])
  }

  lemma FramesEmpty(q: seq<Rec>)
    requires Framable(q)
    ensures |Frames(q)| < 2 <==> q == []
  {
  }

  lemma FramesFront(q: seq<Rec>)
    requires Framable(q) && q != []
    ensures var rest := q[1..];
      && Framable(rest) && Frames(q) == Le16(|q[0]|) + (q[0] + Frames(rest))
      && Frames(q)[..2] == Le16(|q[0]|) && Frames(q)[2..] == q[0] + Frames(rest)
  {
  }

  lemma {:induction false} FramesAppend(q: seq<Rec>, r: Rec)
    requires Framable(q) && 0 < |r| <= U16_MAX
    ensures Framable(q + [r]) && Frames(q + [r]) == Frames(q) + (Le16(|r|) + r)
  {
    if q == [] {
      assert q + [r] == [r] && [r][1..] == [];
      assert Frames([r]) == Le16(|r|) + r + Frames([r][1..]);
    } else {
      assert (q + [r])[1..] == q[1..] + [r];
      FramesAppend(q[1..], r);
    }
  }

  // A queue of at most RING_SIZE framed bytes takes each record in turn whole, or not at all.
  function Admit(q: seq<Rec>, rs: seq<Rec>): (r: seq<Rec>)
    requires Framable(q)
  {
    if rs == [] then q
    else
      var before, last := Admit(q, rs[..|rs| - 1]), rs[|rs| - 1];
      if 0 < |last| <= U16_MAX && Framable(before) && |Frames(before)| + 2 + |last| <= RING_SIZE then before + [last]
      else before
  }

  lemma AdmitNone(q: seq<Rec>, rs: seq<Rec>)
    requires Framable(q)
    ensures Admit(q, rs[|rs|..]) == q
  {
  }

  // One more record arrives, after those from position k on.
  lemma AdmitNext(q: seq<Rec>, rs: seq<Rec>, k: nat, r: Rec)
    requires Framable(q) && k <= |rs|
    ensures var before := Admit(q, rs[k..]);
      Framable(before) && 0 < |r| <= U16_MAX ==>
        Admit(q, (rs + [r])[k..]) == if |Frames(before)| + 2 + |r| <= RING_SIZE then before + [r] else before
  {
    var all := (rs + [r])[k..];
    assert all[..|all| - 1] == rs[k..];
  }

  datatype Decoded = Malformed | Records(q: seq<Rec>)

  // An independent reader of the queue's bytes.
  function Unframe(s: seq<byte>): Decoded
    decreases |s|
  {
    if s == [] then Records([])
    else if |s| < 2 then Malformed
    else
      var n := GetLe16(s, 0);
      if |s| < 2 + n then Malformed
      else
        match Unframe(s[2 + n..])
        case Malformed => Malformed
        case Records(q) => Records([s[2..2 + n]] + q)
  }

  /** The bytes of the queue always read back as exactly the records queued. */
  lemma {:induction false} UnframeFrames(q: seq<Rec>)
    requires Framable(q)
    ensures Unframe(Frames(q)) == Records(q)
  {
    if q != [] {
      var s, n := Frames(q), |q[0]|;
      assert s[0..2] == Le16(n);
      Le16At(n, s, 0);
      assert s[2..2 + n] == q[0] && s[2 + n..] == Frames(q[1..]);
      UnframeFrames(q[1..]);
    }
  }

  /** What a whole line does to the payloads, the overlong lines and a queue that admits. */
  lemma LineAdmitted(s: seq<byte>, q: seq<Rec>, chunk: seq<byte>)
    requires Unfinished(s) == [] && OneLine(chunk) && Framable(q)
    ensures var line, was, now := chunk[..|chunk| - 1], Payloads(Events(s)), Payloads(Events(s + chunk));
      && was <= now && |now| == |was| + (if IsTelemetry(line) then 1 else 0)
      && Overlongs(Events(s + chunk)) == Overlongs(Events(s)) + (if |line| >= 1024 then 1 else 0)
      && Admit(q, now[|was|..]) ==
         if IsTelemetry(line) && |Frames(q)| + 2 + |line[16..]| <= 16384 then q + [line[16..]] else q
  {
    var line, events := chunk[..|chunk| - 1], Events(s);
    LineEvents(s, chunk);
    PayloadsAfter(events, line);
    LineKinds(line);
    AdmitNone(q, Payloads(events));
    hide Payloads, Overlongs, Events, Classify, Frames, Framable, Admit, Ascii;
    if IsTelemetry(line) {
      AdmitNext(q, Payloads(events), |Payloads(events)|, line[16..]);
    }
  }
}
