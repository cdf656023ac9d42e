/** The in-place walk over a zip archive's local entries (section 4.3.7 of the PKWARE APPNOTE)
    that looks for a stored payload.  The two demos walk alike and differ in the payloads they
    want, which is a parameter here. */
module ZipWalk {
  import opened Bytes

  const LOCAL_HDR_LEN := 30
  const LOCAL_SIG: seq<byte> := [0x50, 0x4B, 0x03, 0x04]

  datatype Result = Found(start: nat, len: nat) | NotZip | Streaming | Truncated | OnlyCompressed | NoEntry

  predicate Encrypted(flags: u16) {
    flags % 2 == 1
  }

  predicate HasDescriptor(flags: u16) {
    flags / 8 % 2 == 1
  }

  /** The flags in binary: bit 0 says that an entry is encrypted, bit 3 that a descriptor follows. */
  lemma FlagBits(bit0: bool, bits12: nat, bit3: bool, high: nat)
    requires bits12 < 4 && high < 4096
    ensures var flags := (if bit0 then 1 else 0) + 2 * bits12 + (if bit3 then 8 else 0) + 16 * high;
      (Encrypted(flags) <==> bit0) && (HasDescriptor(flags) <==> bit3)
  {
    var b0, b3 := if bit0 then 1 else 0, if bit3 then 1 else 0;
    LowBit(b0, bits12 + 4 * b3 + 8 * high);
    AboveBit3(b0 + 2 * bits12, b3 + 2 * high);
    LowBit(b3, high);
  }

  lemma LowBit(bit: nat, rest: nat)
    requires bit < 2
    ensures (bit + 2 * rest) % 2 == bit
  {
  }

  lemma AboveBit3(low: nat, rest: nat)
    requires low < 8
    ensures (low + 8 * rest) / 8 == rest
  {
  }

  predicate EntryAt(buf: seq<byte>, off: nat) {
    off + LOCAL_HDR_LEN <= |buf| && buf[off..off + 4] == LOCAL_SIG
  }

  function DataOff(buf: seq<byte>, off: nat): nat
    requires off + LOCAL_HDR_LEN <= |buf|
  {
    off + LOCAL_HDR_LEN + GetLe16(buf, off + 26) + GetLe16(buf, off + 28)
  }

  // The rest of a walk that has reached `off`.
  function WalkFrom(buf: seq<byte>, wanted: seq<byte> -> bool, off: nat, compressedSeen: bool): Result
    decreases |buf| - off
  {
    if !EntryAt(buf, off) then (if compressedSeen then OnlyCompressed else NoEntry)
    else
      var flags, comp := GetLe16(buf, off + 6), GetLe16(buf, off + 8);
      var size, data := GetLe32(buf, off + 18), DataOff(buf, off);
      if HasDescriptor(flags) then Streaming
      else if data + size > |buf| then Truncated
      else if comp == 0 && !Encrypted(flags) && wanted(buf[data..data + size]) then Found(data, size)
      else WalkFrom(buf, wanted, data + size, compressedSeen || comp != 0)
  }

  function Walk(buf: seq<byte>, wanted: seq<byte> -> bool): Result {
    if !EntryAt(buf, 0) then NotZip else WalkFrom(buf, wanted, 0, false)
  }

  method FindStored(buf: array<byte>, len: nat, wanted: seq<byte> -> bool) returns (r: Result)
    requires len <= buf.Length
    ensures r == Walk(buf[..len], wanted)
    ensures r.Found? ==> r.start + r.len <= len && wanted(buf[r.start..r.start + r.len])
  {
    hide GetLe16, GetLe32;
    var compressedSeen, off := false, 0;
    ghost var body := buf[..len];
    if len < LOCAL_HDR_LEN || buf[..4] != LOCAL_SIG {
      return NotZip;
    }
    while off + LOCAL_HDR_LEN <= len && buf[off..off + 4] == LOCAL_SIG
      invariant WalkFrom(body, wanted, 0, false) == WalkFrom(body, wanted, off, compressedSeen)
      decreases len - off
    {
      var flags, comp := GetLe16(buf[..len], off + 6), GetLe16(buf[..len], off + 8);
      var size := GetLe32(buf[..len], off + 18);
      var data := off + LOCAL_HDR_LEN + GetLe16(buf[..len], off + 26) + GetLe16(buf[..len], off + 28);
      if flags / 8 % 2 == 1 {
        return Streaming;
      }
      if data + size > len {
        return Truncated;
      }
      assert buf[..len][data..data + size] == buf[data..data + size];
      if comp == 0 && flags % 2 == 0 && wanted(buf[data..data + size]) {
        return Found(data, size);
      }
      if comp != 0 {
        compressedSeen := true;
      }
      off := data + size;
    }
    return if compressedSeen then OnlyCompressed else NoEntry;
  }

  // ---------- a walk whose sizes are 32 bits wide ----------

  const SIZE_T := 0x1_0000_0000

  // One turn of the walk: it stops, goes on, or looks at data outside the body.
  datatype Turn = Stop(r: Result) | Next(off: nat) | Outside

  function End(buf: seq<byte>, off: nat): nat
    requires off + LOCAL_HDR_LEN <= |buf|
  {
    DataOff(buf, off) + GetLe32(buf, off + 18)
  }

  function TurnAt(buf: seq<byte>, wanted: seq<byte> -> bool, off: nat): Turn
    requires EntryAt(buf, off)
  {
    var flags, comp, data, end := GetLe16(buf, off + 6), GetLe16(buf, off + 8), DataOff(buf, off), End(buf, off);
    if HasDescriptor(flags) then Stop(Streaming)
    else if end > |buf| then Stop(Truncated)
    else if comp == 0 && !Encrypted(flags) && wanted(buf[data..end]) then Stop(Found(data, end - data))
    else Next(end)
  }

  // The same turn when offset plus size is computed modulo 2^32.
  function TurnAt32(buf: seq<byte>, wanted: seq<byte> -> bool, off: nat): Turn
    requires EntryAt(buf, off)
  {
    var flags, comp, data, end := GetLe16(buf, off + 6), GetLe16(buf, off + 8), DataOff(buf, off), End(buf, off);
    if HasDescriptor(flags) then Stop(Streaming)
    else if end % SIZE_T > |buf| then Stop(Truncated)
    else if comp == 0 && !Encrypted(flags) then
      (if end > |buf| then Outside
       else if wanted(buf[data..end]) then Stop(Found(data, end - data)) else Next(end))
    else Next(end % SIZE_T)
  }

  // The recorded size makes the sum wrap to a place inside the body.
  predicate SizeWraps(buf: seq<byte>, off: nat)
    requires off + LOCAL_HDR_LEN <= |buf|
  {
    SIZE_T <= End(buf, off) <= SIZE_T + |buf|
  }

  /** With 32-bit sizes a turn is the one of this walk if and only if the recorded size does not
      make the sum wrap into the body (an entry with a data descriptor is refused before). */
  lemma TurnIsExactIff(buf: seq<byte>, wanted: seq<byte> -> bool, off: nat)
    requires EntryAt(buf, off) && |buf| < SIZE_T / 2
    ensures TurnAt32(buf, wanted, off) == TurnAt(buf, wanted, off) <==>
            HasDescriptor(GetLe16(buf, off + 6)) || !SizeWraps(buf, off)
  {
    var end := End(buf, off);
    assert end < 2 * SIZE_T;
    assert end % SIZE_T == if end < SIZE_T then end else end - SIZE_T;
    hide GetLe16, GetLe32;
  }

  /** What a turn does on an entry whose size wraps: this walk refuses the archive as truncated,
      the 32-bit one looks outside the body if the entry is stored and unencrypted, and goes on
      somewhere inside the body otherwise. */
  lemma WrappingTurn(buf: seq<byte>, wanted: seq<byte> -> bool, off: nat)
    requires EntryAt(buf, off) && |buf| < SIZE_T / 2 && SizeWraps(buf, off) && !HasDescriptor(GetLe16(buf, off + 6))
    ensures TurnAt(buf, wanted, off) == Stop(Truncated)
    ensures TurnAt32(buf, wanted, off) == if StoredPlain(buf, off) then Outside else Next(End(buf, off) - SIZE_T)
  {
    var end := End(buf, off);
    assert end < 2 * SIZE_T;
    assert end % SIZE_T == end - SIZE_T;
    hide GetLe16, GetLe32;
  }

  predicate StoredPlain(buf: seq<byte>, off: nat)
    requires off + LOCAL_HDR_LEN <= |buf|
  {
    GetLe16(buf, off + 8) == 0 && !Encrypted(GetLe16(buf, off + 6))
  }

  // The walk is made of its turns.
  lemma WalkTurn(buf: seq<byte>, wanted: seq<byte> -> bool, off: nat, seen: bool)
    requires EntryAt(buf, off)
    ensures match TurnAt(buf, wanted, off)
      case Stop(r) => WalkFrom(buf, wanted, off, seen) == r
      case Next(end) =>
        && end > off
        && WalkFrom(buf, wanted, off, seen) == WalkFrom(buf, wanted, end, seen || GetLe16(buf, off + 8) != 0)
      case Outside => false
  {
    hide GetLe16, GetLe32;
  }

  // The 32-bit walk, cut off after so many turns.
  function Walk32(buf: seq<byte>, wanted: seq<byte> -> bool, off: nat, seen: bool, turns: nat): Turn
    decreases turns
  {
    if !EntryAt(buf, off) then Stop(if seen then OnlyCompressed else NoEntry)
    else if turns == 0 then Next(off)
    else
      match TurnAt32(buf, wanted, off)
      case Next(end) => Walk32(buf, wanted, end, seen || GetLe16(buf, off + 8) != 0, turns - 1)
      case t => t
  }

  // The first entry the walk comes to whose size wraps: where it is, after how many turns, and
  // whether a compressed entry came before it.
  datatype Wrap = NeverWraps | WrapsAt(off: nat, turns: nat, seen: bool)

  function FirstWrap(buf: seq<byte>, wanted: seq<byte> -> bool, off: nat, seen: bool): Wrap
    decreases |buf| - off
  {
    if !EntryAt(buf, off) then NeverWraps
    else if !HasDescriptor(GetLe16(buf, off + 6)) && SizeWraps(buf, off) then WrapsAt(off, 0, seen)
    else
      match TurnAt(buf, wanted, off)
      case Next(end) =>
        (match FirstWrap(buf, wanted, end, seen || GetLe16(buf, off + 8) != 0)
         case NeverWraps => NeverWraps
         case WrapsAt(at, turns, seen') => WrapsAt(at, turns + 1, seen'))
      case _ => NeverWraps
  }

  // What the 32-bit walk comes to after its first wrapping entry.
  function AfterWrap(buf: seq<byte>, wanted: seq<byte> -> bool, wrap: Wrap, turns: nat): Turn
    requires wrap.WrapsAt? && EntryAt(buf, wrap.off) && SizeWraps(buf, wrap.off) && turns > wrap.turns
  {
    if StoredPlain(buf, wrap.off) then Outside
    else
      var seen := wrap.seen || GetLe16(buf, wrap.off + 8) != 0;
      Walk32(buf, wanted, End(buf, wrap.off) - SIZE_T, seen, turns - wrap.turns - 1)
  }

  /** The 32-bit walk, for every archive.  If no entry it comes to wraps, it ends and is this walk.
      Otherwise this walk refuses the archive as truncated, and the 32-bit one looks outside the
      body or goes on from a place inside it, possibly for ever. */
  lemma {:induction false} Walk32Is(buf: seq<byte>, wanted: seq<byte> -> bool, off: nat, seen: bool, turns: nat)
    requires |buf| < SIZE_T / 2 && turns + off > |buf|
    ensures ComesTo(buf, wanted, off, seen, turns, FirstWrap(buf, wanted, off, seen))
    decreases turns
  {
    hide GetLe16, GetLe32, Encrypted, HasDescriptor, TurnAt, TurnAt32, End, SizeWraps, DataOff, AfterWrap;
    if EntryAt(buf, off) {
      TurnIsExactIff(buf, wanted, off);
      WalkTurn(buf, wanted, off, seen);
      if !HasDescriptor(GetLe16(buf, off + 6)) && SizeWraps(buf, off) {
        WrappingTurn(buf, wanted, off);
        WrapHere(buf, wanted, off, seen, turns);
      } else if TurnAt(buf, wanted, off).Next? {
        var end, seen' := TurnAt(buf, wanted, off).off, seen || GetLe16(buf, off + 8) != 0;
        Walk32Is(buf, wanted, end, seen', turns - 1);
        WrapLater(buf, wanted, end, seen', turns - 1);
      }
    }
  }

  ghost predicate ComesTo(buf: seq<byte>, wanted: seq<byte> -> bool, off: nat, seen: bool, turns: nat, wrap: Wrap) {
    match wrap
    case NeverWraps => Walk32(buf, wanted, off, seen, turns) == Stop(WalkFrom(buf, wanted, off, seen))
    case WrapsAt(at, k, _) =>
      && WalkFrom(buf, wanted, off, seen) == Truncated
      && EntryAt(buf, at) && SizeWraps(buf, at) && turns > k
      && Walk32(buf, wanted, off, seen, turns) == AfterWrap(buf, wanted, wrap, turns)
  }

  lemma WrapHere(buf: seq<byte>, wanted: seq<byte> -> bool, off: nat, seen: bool, turns: nat)
    requires EntryAt(buf, off) && SizeWraps(buf, off) && turns > 0
    requires TurnAt32(buf, wanted, off) == if StoredPlain(buf, off) then Outside else Next(End(buf, off) - SIZE_T)
    ensures Walk32(buf, wanted, off, seen, turns) == AfterWrap(buf, wanted, WrapsAt(off, 0, seen), turns)
  {
    hide GetLe16, GetLe32, TurnAt32, End, DataOff, StoredPlain;
  }

  // What follows a wrapping entry does not depend on how the walk got there.
  lemma WrapLater(buf: seq<byte>, wanted: seq<byte> -> bool, off: nat, seen: bool, turns: nat)
    ensures var wrap := FirstWrap(buf, wanted, off, seen);
      wrap.WrapsAt? && EntryAt(buf, wrap.off) && SizeWraps(buf, wrap.off) && turns > wrap.turns ==>
        AfterWrap(buf, wanted, wrap.(turns := wrap.turns + 1), turns + 1) == AfterWrap(buf, wanted, wrap, turns)
  {
    hide GetLe16, GetLe32, FirstWrap, End, DataOff, StoredPlain, Walk32;
  }

  // A body of one local header without name, extra field or data, whose recorded size takes the
  // 32-bit sum back to the header itself.
  function LoneHeader(comp: u16): (s: seq<byte>)
    ensures |s| == LOCAL_HDR_LEN
  {
    LOCAL_SIG + Le16(20) + Le16(0) + Le16(comp) + Le16(0) + Le16(0)
    + Le32(0) + Le32(0xFFFF_FFE2) + Le32(0) + Le16(0) + Le16(0)
  }

  lemma LoneHeaderReads(comp: u16)
    ensures var b := LoneHeader(comp);
      && EntryAt(b, 0) && GetLe16(b, 6) == 0 && GetLe16(b, 8) == comp && DataOff(b, 0) == LOCAL_HDR_LEN
      && End(b, 0) == SIZE_T && SizeWraps(b, 0)
  {
    var b := LoneHeader(comp);
    assert b[6..8] == Le16(0) && b[8..10] == Le16(comp) && b[18..22] == Le32(0xFFFF_FFE2);
    assert b[26..28] == Le16(0) && b[28..30] == Le16(0);
    hide GetLe16, GetLe32, Le16, Le32, LoneHeader;
    Le16At(0, b, 6);
    Le16At(comp, b, 8);
    Le32At(0xFFFF_FFE2, b, 18);
    Le16At(0, b, 26);
    Le16At(0, b, 28);
  }

  /** An input on which the 32-bit walk never ends: after any number of turns it stands where it
      began.  This walk refuses it. */
  lemma {:induction false} Walk32NeedNotEnd(wanted: seq<byte> -> bool, seen: bool, turns: nat)
    ensures Walk32(LoneHeader(8), wanted, 0, seen, turns) == Next(0) && Walk(LoneHeader(8), wanted) == Truncated
    decreases turns
  {
    var b := LoneHeader(8);
    LoneHeaderReads(8);
    hide GetLe16, GetLe32, LoneHeader, DataOff, End;
    WrappingTurn(b, wanted, 0);
    WalkTurn(b, wanted, 0, false);
    if turns > 0 {
      Walk32NeedNotEnd(wanted, true, turns - 1);
    }
  }

  /** An input on which the 32-bit walk looks outside the body. */
  lemma Walk32LooksOutside(wanted: seq<byte> -> bool, seen: bool, turns: nat)
    requires turns > 0
    ensures Walk32(LoneHeader(0), wanted, 0, seen, turns) == Outside && Walk(LoneHeader(0), wanted) == Truncated
  {
    var b := LoneHeader(0);
    LoneHeaderReads(0);
    hide GetLe16, GetLe32, LoneHeader, DataOff, End;
    WrappingTurn(b, wanted, 0);
    WalkTurn(b, wanted, 0, false);
  }

  // ---------- well-formed archives ----------

  datatype RawEntry = Entry(version: u16, flags: u16, comp: u16, time: u16, date: u16, crc: u32, rawSize: u32,
                         name: seq<byte>, extra: seq<byte>, data: seq<byte>)

  // Lengths that the header can express.
  type Entry = e: RawEntry | |e.name| <= U16_MAX && |e.extra| <= U16_MAX && |e.data| <= U32_MAX
    witness RawEntry.Entry(0, 0, 0, 0, 0, 0, 0, [], [], [])

  function LocalHeader(e: Entry): (s: seq<byte>)
    ensures |s| == LOCAL_HDR_LEN
  {
    LOCAL_SIG + Le16(e.version) + Le16(e.flags) + Le16(e.comp) + Le16(e.time) + Le16(e.date)
    + Le32(e.crc) + Le32(|e.data|) + Le32(e.rawSize) + Le16(|e.name|) + Le16(|e.extra|)
  }

  /** Where section 4.3.7 of the APPNOTE puts the fields that the walk reads. */
  lemma LocalLayout(e: Entry)
    ensures var s := Local(e); var data := 30 + |e.name| + |e.extra|;
      && s[0..4] == [0x50, 0x4B, 3, 4] && s[6..8] == Le16(e.flags) && s[8..10] == Le16(e.comp)
      && s[18..22] == Le32(|e.data|) && s[26..28] == Le16(|e.name|) && s[28..30] == Le16(|e.extra|)
      && s[30..30 + |e.name|] == e.name && s[30 + |e.name|..data] == e.extra && s[data..] == e.data
  {
    hide Le16, Le32;
    var s, h := Local(e), LocalHeader(e);
    assert s[..30] == h;
    assert h[0..4] == LOCAL_SIG;
  }

  // Two bytes, the low one first.
  function Pair(low: byte, high: byte): nat {
    low as int + 0x100 * high as int
  }

  /** How the first local header decides, byte by byte. */
  lemma FirstHeader(buf: seq<byte>, wanted: seq<byte> -> bool)
    requires |buf| >= 30 && buf[..4] == [0x50, 0x4B, 3, 4]
    ensures var data := 30 + Pair(buf[26], buf[27]) + Pair(buf[28], buf[29]);
      var size := Word(buf[18], buf[19], buf[20], buf[21]);
      if buf[6] / 8 % 2 == 1 then Walk(buf, wanted) == Streaming
      else if data + size > |buf| then Walk(buf, wanted) == Truncated
      else buf[8] == 0 && buf[9] == 0 && buf[6] % 2 == 0 && wanted(buf[data..data + size]) ==>
        Walk(buf, wanted) == Found(data, size)
  {
    hide Word;
    HeaderBytes(buf);
    assert buf[0..4] == buf[..4];
    hide GetLe16, GetLe32, Pair, DataOff;
  }

  // Both flags are in the low byte.
  lemma FlagsInLowByte(low: byte, high: byte)
    ensures HasDescriptor(Pair(low, high)) <==> low / 8 % 2 == 1
    ensures Encrypted(Pair(low, high)) <==> low % 2 == 1
  {
    AboveBit3(low % 8, low / 8 + 32 * high as int);
    LowBit(low / 8 % 2, low / 8 / 2 + 16 * high as int);
    LowBit(low % 2, low / 2 + 128 * high as int);
  }

  lemma HeaderBytes(buf: seq<byte>)
    requires |buf| >= 30
    ensures DataOff(buf, 0) == 30 + Pair(buf[26], buf[27]) + Pair(buf[28], buf[29])
    ensures GetLe32(buf, 18) == Word(buf[18], buf[19], buf[20], buf[21]) && GetLe16(buf, 8) == Pair(buf[8], buf[9])
    ensures GetLe16(buf, 8) == 0 <==> buf[8] == 0 && buf[9] == 0
    ensures HasDescriptor(GetLe16(buf, 6)) <==> buf[6] / 8 % 2 == 1
    ensures Encrypted(GetLe16(buf, 6)) <==> buf[6] % 2 == 1
  {
    FlagsInLowByte(buf[6], buf[7]);
    hide Word, HasDescriptor, Encrypted;
  }

  lemma NoHeader(buf: seq<byte>, wanted: seq<byte> -> bool)
    requires |buf| < 30 || buf[..4] != [0x50, 0x4B, 3, 4]
    ensures Walk(buf, wanted) == NotZip
  {
    assert |buf| >= 4 ==> buf[0..4] == buf[..4];
  }

  function Local(e: Entry): (s: seq<byte>)
    ensures |s| == LOCAL_HDR_LEN + |e.name| + |e.extra| + |e.data|
  {
    LocalHeader(e) + (e.name + e.extra + e.data)
  }

  function Archive(es: seq<Entry>): seq<byte>
  {
    if es == [] then [] else Local(es[0]) + Archive(es[1..])
  }

  // What follows the local entries (the central directory) does not look like one of them.
  predicate EndsEntries(tail: seq<byte>) {
    !EntryAt(tail, 0)
  }

  datatype Choice = Pick(i: nat) | Refuse(r: Result)

  predicate Wanted(e: Entry, wanted: seq<byte> -> bool) {
    e.comp == 0 && !Encrypted(e.flags) && wanted(e.data)
  }

  // The entry that should be chosen: the first stored, unencrypted, wanted one, unless an
  // entry with a data descriptor comes before it.
  function Choose(es: seq<Entry>, wanted: seq<byte> -> bool, compressedSeen: bool): Choice {
    if es == [] then Refuse(if compressedSeen then OnlyCompressed else NoEntry)
    else if HasDescriptor(es[0].flags) then Refuse(Streaming)
    else if Wanted(es[0], wanted) then Pick(0)
    else
      match Choose(es[1..], wanted, compressedSeen || es[0].comp != 0)
      case Pick(i) => Pick(i + 1)
      case Refuse(r) => Refuse(r)
  }

  function DataStart(es: seq<Entry>, i: nat): nat
    requires i < |es|
  {
    if i == 0 then LOCAL_HDR_LEN + |es[0].name| + |es[0].extra| else |Local(es[0])| + DataStart(es[1..], i - 1)
  }

  lemma HeaderReads(e: Entry, buf: seq<byte>, off: nat)
    requires off + LOCAL_HDR_LEN <= |buf| && buf[off..off + LOCAL_HDR_LEN] == LocalHeader(e)
    ensures EntryAt(buf, off) && GetLe16(buf, off + 6) == e.flags && GetLe16(buf, off + 8) == e.comp
    ensures GetLe32(buf, off + 18) == |e.data| && DataOff(buf, off) == off + LOCAL_HDR_LEN + |e.name| + |e.extra|
  {
    hide GetLe16, GetLe32, Le16, Le32;
    var h := LocalHeader(e);
    assert buf[off..off + 4] == h[..4];
    assert buf[off + 6..off + 8] == h[6..8] == Le16(e.flags);
    assert buf[off + 8..off + 10] == h[8..10] == Le16(e.comp);
    assert buf[off + 18..off + 22] == h[18..22] == Le32(|e.data|);
    assert buf[off + 26..off + 28] == h[26..28] == Le16(|e.name|);
    assert buf[off + 28..off + 30] == h[28..30] == Le16(|e.extra|);
    Le16At(e.flags, buf, off + 6);
    Le16At(e.comp, buf, off + 8);
    Le32At(|e.data|, buf, off + 18);
    Le16At(|e.name|, buf, off + 26);
    Le16At(|e.extra|, buf, off + 28);
  }

  // A result of the walk is the choice that should be made: it points at the chosen data.
  ghost predicate Agrees(c: Choice, r: Result, buf: seq<byte>, off: nat, es: seq<Entry>)
  {
    match c
    case Refuse(x) => r == x
    case Pick(i) =>
      && i < |es| && r == Found(off + DataStart(es, i), |es[i].data|)
      && r.start + r.len <= |buf| && buf[r.start..r.start + r.len] == es[i].data
  }

  // One entry in front of the rest of the body.
  lemma EntryReads(buf: seq<byte>, off: nat, e: Entry, rest: seq<byte>)
    requires off <= |buf| && buf[off..] == Local(e) + rest
    ensures var data := off + LOCAL_HDR_LEN + |e.name| + |e.extra|;
      && EntryAt(buf, off) && GetLe16(buf, off + 6) == e.flags && GetLe16(buf, off + 8) == e.comp
      && GetLe32(buf, off + 18) == |e.data| && DataOff(buf, off) == data && data + |e.data| <= |buf|
      && buf[data..data + |e.data|] == e.data && buf[data + |e.data|..] == rest
  {
    hide GetLe16, GetLe32, LocalHeader;
    var all, data := buf[off..], off + LOCAL_HDR_LEN + |e.name| + |e.extra|;
    assert |all| == |Local(e)| + |rest|;
    assert buf[off..off + LOCAL_HDR_LEN] == all[..LOCAL_HDR_LEN] == LocalHeader(e);
    HeaderReads(e, buf, off);
    assert all[data - off..data - off + |e.data|] == e.data;
    assert buf[data..data + |e.data|] == all[data - off..data - off + |e.data|];
    assert buf[data + |e.data|..] == all[|Local(e)|..];
  }

  // One turn of the walk, in terms of the entry it stands on.
  lemma WalkOne(buf: seq<byte>, off: nat, e: Entry, rest: seq<byte>, wanted: seq<byte> -> bool, seen: bool)
    requires off <= |buf| && buf[off..] == Local(e) + rest
    ensures var data := off + LOCAL_HDR_LEN + |e.name| + |e.extra|;
      && data + |e.data| <= |buf| && buf[data..data + |e.data|] == e.data && buf[data + |e.data|..] == rest
      && WalkFrom(buf, wanted, off, seen) ==
           if HasDescriptor(e.flags) then Streaming
           else if Wanted(e, wanted) then Found(data, |e.data|)
           else WalkFrom(buf, wanted, data + |e.data|, seen || e.comp != 0)
  {
    hide GetLe16, GetLe32, Local, LocalHeader, DataOff, EntryAt, HasDescriptor, Encrypted;
    EntryReads(buf, off, e, rest);
  }

  lemma WalkStops(buf: seq<byte>, off: nat, tail: seq<byte>, wanted: seq<byte> -> bool, seen: bool)
    requires off <= |buf| && buf[off..] == tail && EndsEntries(tail)
    ensures WalkFrom(buf, wanted, off, seen) == if seen then OnlyCompressed else NoEntry
  {
    assert |tail| >= 4 ==> buf[off..off + 4] == tail[..4];
  }

  /** On concatenated well-formed entries the walk chooses the entry that should be chosen and
      points at exactly its data, or refuses for the right reason. */
  lemma {:induction false} WalkChooses(buf: seq<byte>, off: nat, es: seq<Entry>, tail: seq<byte>,
                                       wanted: seq<byte> -> bool, seen: bool)
    requires off <= |buf| && buf[off..] == Archive(es) + tail && EndsEntries(tail)
    ensures Agrees(Choose(es, wanted, seen), WalkFrom(buf, wanted, off, seen), buf, off, es)
    decreases |es|
  {
    hide Local, WalkFrom, HasDescriptor, Wanted, EndsEntries;
    if es == [] {
      assert buf[off..] == tail;
      WalkStops(buf, off, tail, wanted, seen);
    } else {
      var e, more := es[0], Archive(es[1..]) + tail;
      var next := off + LOCAL_HDR_LEN + |e.name| + |e.extra| + |e.data|;
      assert buf[off..] == Local(e) + more;
      WalkOne(buf, off, e, more, wanted, seen);
      if !HasDescriptor(e.flags) && !Wanted(e, wanted) {
        WalkChooses(buf, next, es[1..], tail, wanted, seen || e.comp != 0);
      }
    }
  }

  /** The walk over a whole archive of at least one entry. */
  lemma WalkArchive(es: seq<Entry>, tail: seq<byte>, wanted: seq<byte> -> bool)
    requires es != [] && EndsEntries(tail)
    ensures var buf := Archive(es) + tail;
      EntryAt(buf, 0) && Agrees(Choose(es, wanted, false), Walk(buf, wanted), buf, 0, es)
  {
    hide GetLe16, GetLe32, Local;
    var buf := Archive(es) + tail;
    assert buf[0..] == buf;
    assert buf == Local(es[0]) + (Archive(es[1..]) + tail);
    hide Archive, WalkFrom, Choose, Agrees, EntryAt, EndsEntries, DataOff;
    EntryReads(buf, 0, es[0], Archive(es[1..]) + tail);
    WalkChooses(buf, 0, es, tail, wanted, false);
  }

  // Entry i is the first one wanted, and no entry up to it has a data descriptor.
  ghost predicate FirstWanted(es: seq<Entry>, i: nat, wanted: seq<byte> -> bool) {
    && i < |es| && !HasDescriptor(es[i].flags) && Wanted(es[i], wanted)
    && forall k :: 0 <= k < i ==> !HasDescriptor(es[k].flags) && !Wanted(es[k], wanted)
  }

  lemma IsFirstWanted(es: seq<Entry>, i: nat, wanted: seq<byte> -> bool)
    requires i < |es| && !HasDescriptor(es[i].flags) && Wanted(es[i], wanted)
    requires forall k :: 0 <= k < i ==> !HasDescriptor(es[k].flags) && !Wanted(es[k], wanted)
    ensures FirstWanted(es, i, wanted)
  {
  }

  lemma {:induction false} FirstIsChosen(es: seq<Entry>, i: nat, wanted: seq<byte> -> bool, seen: bool)
    requires FirstWanted(es, i, wanted)
    ensures Choose(es, wanted, seen) == Pick(i)
    decreases i
  {
    hide HasDescriptor, Wanted;
    if i > 0 {
      FirstIsChosen(es[1..], i - 1, wanted, seen || es[0].comp != 0);
    }
  }

  /** The walk finds the first wanted entry, whatever follows it. */
  lemma FirstFound(es: seq<Entry>, i: nat, tail: seq<byte>, wanted: seq<byte> -> bool)
    requires FirstWanted(es, i, wanted) && EndsEntries(tail)
    ensures var buf, start, len := Archive(es) + tail, DataStart(es, i), |es[i].data|;
      && EntryAt(buf, 0) && Walk(buf, wanted) == Found(start, len)
      && start + len <= |buf| && buf[start..start + len] == es[i].data
  {
    hide Archive, Walk, EntryAt, HasDescriptor, Wanted, Choose, DataStart, EndsEntries;
    FirstIsChosen(es, i, wanted, false);
    WalkArchive(es, tail, wanted);
  }
}
