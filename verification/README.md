# Verified models of the IOTCONNECT Zephyr demos

This project models the stateful cores of the demo applications in Dafny and proves what they
are for. `dafny verify dfyconfig.toml` checks everything. Each core that updates state in place is a
class or an in-place method proved against a specification function; the main results are lemmas about
those functions, for all inputs, all runs or all interleavings.

## What is modelled

**Gateway store-and-forward** (`demos/gateway`).

| file | content |
|---|---|
| `CrcDetection.dfy` | what the CRC-32 detects for certain |
| `SpoolSlot.dfy` | one spooled record as three 512-byte sectors: header, payload, CRC-32; torn writes |
| `SpoolRing.dfy` | the ring of slots as a reader sees it, and the boot scan |
| `SpoolModel.dfy` | the spool's operations on values; bounded FIFO, power loss, conservation |
| `Spool.dfy` | the spool in its own form: RAM counters, a staging buffer, an array of slots |
| `SpoolRuns.dfy` | runs that mix failing writes, power losses and reboots |
| `LineFormat.dfy`, `UartIngest.dfy` | what a UART byte stream means; the interrupt handler's line assembler and its ring |
| `Gateway.dfy`, `GatewayLoop.dfy` | whole runs of the system; the main loop over the spool and the links, whose every turn is such a run |

A driver write succeeds, or fails and leaves any subset of its sectors behind; power may fail between
any two steps or inside the write of a push, a commit or a wipe. The medium holds real sector contents with a concrete CRC-32.

**PNG encoder** (`demos/vision-occupancy/src/png_gray.c`): `PngFormat.dfy` is a decoder written from the
PNG Specification (Second Edition), sections 5.2, 5.3, 9.2, 11.2.2, 11.2.4 and 11.2.5, RFC 1950 section 2.2 and
RFC 1951 section 3.2.4; it knows nothing of the encoder. `PngStream.dfy` is the stream, its size and the round trip.
`PngGray.dfy` is the encoder with its sticky error, 16-bit column counter, incremental Adler-32 and patched length.

**Camera** (`vision_camera.c`, the snapshot hand-off in `main.c`): `Camera.dfy` has the two reductions, `Snapshot.dfy`
the two concurrent protocols (snapshot frame, capture buffers) as state machines whose actions are single accesses
to shared variables. Memory is sequentially consistent there.

**Model delivery** (`model_store.c`, `main.c`, `pack_model.py`): `ModelEnvelope.dfy`, `ZipWalk.dfy` (section 4.3.7 of the
PKWARE APPNOTE), `ModelStore.dfy` (flash partition), `ModelInstall.dfy` (staging and active
buffers, trial load, rollback, boot), `ModelRuns.dfy` (whole lives of a device).

**Tiny classifier** (`demos/ml-model-update`): `MlpNet.dfy` (matrix form, banded models), `MlpBlob.dfy` (packing and
validation), `MlpEngine.dfy` (inference by flat index), `MlpDelivery.dfy` (resident and saved blob, sibling zip walk). Real
arithmetic; `val` says which real a 32-bit weight word stands for.

**Vibration window** (`demos/eiq-pdm-vibration`): `Vibration.dfy`. `Arith.dfy`, `Bytes.dfy` and `Options.dfy` are shared.

## Main results

- Spool: `RingIsBoundedFifo`, `PushLosesNothingIff`, `Conservation`, and recovery from power loss at any point of a push, a
  commit or a wipe: `CrashDuringPush`, `CrashDuringPushAfterErrors`, `CrashDuringCommitAfterErrors`, `RebootAfterWipe`
  (`SpoolModel`), on real sectors `PowerLossDuringPush` and `PowerLossAfterErrors` (`Spool`); `SpoolRuns.QueueIsPushed` over runs
  that mix failing writes, power losses and reboots; `SpoolModel.PushAllQueues` after any number of pushes in a row.
- CRC-32: `CrcDetection.AlteredByteShows`, and from it `SpoolSlot.AlteredPayloadIsBad`, `MlpBlob.AlteredByteIff`,
  `ModelEnvelope.AlteredByteIff`.
- Gateway: `Gateway.StoreAndForward` and `Gateway.NothingMissingIff` over all runs; `GatewayLoop.Loop.Tick` is such a run.
- UART: `UartIngest.Link.Isr` against the stream's meaning, `UartIngest.Link.Pop`.
- PNG: `PngGray.Encode` produces exactly the stream of `PngStream.RoundTrip` and `PngStream.DecodesIff`; its sums are those of
  `PngFormat.SumsOfFill`, `PngFormat.AdlerOfWhiteLine` and `PngFormat.AdlerCheckValue`.
- Camera: `PixelContributesOnce`, `LonePixelInGray`, `CropInsideIff`, `SnapshotFits`; `Snapshot.FrameIsOwned`,
  `Snapshot.RequestIsServed`, `CaptureBuffers.DriverStarvesIff`.
- Model delivery: `ZipWalk.WalkArchive`, `ModelInstall.ZippedBlobComesBack`, the contracts of `ModelInstall.Device`,
  `ModelStore.CrashDuringWrite`, `ModelStore.NeverAMixture`, `ModelRuns.WhatRunsWasDelivered`, `ModelRuns.PushedModelComesBack`.
- Tiny classifier: `MlpBlob.PackValidates`, `MlpBlob.ValidIff`, `MlpEngine.Infer`, `MlpEngine.BandedModelDecides`, `MlpEngine.BandedModelOutsideGuard`, `MlpBands.BandsAreExactIff`,
  `MlpBands.GuardIsExact`.
- Vibration: `OnePassIsTwoPass`, `VarianceSign`, `Window`.

## What the code does that its documentation does not say

- `demos/gateway/README.md:14` says that nothing is lost. A push keeps everything if and only if the spool is ready, the
  record fits, the write succeeds and the ring is not full of records (`SpoolModel.PushLosesNothingIff`; an input on which a
  record is lost is `SpoolModel.FullRingLosesItsOldest`). Building a record keeps everything if and only if the client takes
  it live or such a push follows (`Gateway.BuildLosesNothingIff`). At the end of a run some record is neither with the
  client nor on the disk if and only if an event of the run refused it live, found no room for it, or took it out of the
  queue before the client ever had it (`Gateway.NothingMissingIff`, `Gateway.Loses`). The client's answer to a publish is
  not looked at: what it refuses is committed all the same.
- An empty record makes `spool_peek` report an empty queue (`SpoolModel.PeekReturnsFront` has the exact condition). A long
  enough drain publishes the whole queue if and only if no queued record is empty (`Spool.LongDrainEmptiesIff`); with an
  empty one in front no later peek has anything to publish (`SpoolModel.EmptyRecordBlocks`).
- `demos/gateway/src/spool.h:18-19` says that a reboot never re-sends drained records. That holds if and only if the commit's sector landed
  (`SpoolModel.CommitForgetsIff`), and a record that was published but not yet committed at a reboot is sent again.
- `stats.count` stops following the record count after exactly one operation, a failed write on a full ring
  (`SpoolModel.StatsCountGoesStale`). `stats.drops` also counts the bad slots that `spool_peek` skips.
- A wipe whose write fails still resets the counters. The disk agrees with them exactly when no header is left beyond the
  failure (`SpoolModel.WipeEmpties`); otherwise a reboot brings the rest back (`SpoolModel.RebootAfterWipe`).
- `PNG_GRAY_MAX_SIZE` is enough exactly up to 13 stored blocks (`PngStream.MaxSizeSuffices`).
- Capture accepts portrait frames. The columns that the 96 x 96 reduction reads lie in the frame if and only if the frame
  is not one (`Camera.CropInsideIff`).
- The zip walk adds offset and recorded size in `size_t`. Where that is 32 bits wide, its turn is the intended one if and only
  if the sum does not wrap into the body (`ZipWalk.TurnIsExactIff`); at the first entry where it does, a stored and
  unencrypted one makes the walk look outside the body, any other makes it go on from somewhere inside it
  (`ZipWalk.Walk32Is`), possibly for ever. `ZipWalk.Walk32NeedNotEnd` and `ZipWalk.Walk32LooksOutside` have an input each.
- `png_gray_encode` takes any dimensions. It reads only pixels that exist if and only if the image has columns or at most
  one row (`PngGray.ReadsInsideIff`), and what it writes is a picture if and only if it has a pixel (`PngStream.DecodesIff`).
- The checksum of a vision model covers neither its name nor its version. A write cut off inside the name is loaded as a
  blob that was never saved exactly when the payload is all 0xFF and a byte of the name that is not 0xFF is missing
  (`ModelStore.TornNameIsLoaded`; for a cut anywhere, `ModelStore.CrashDuringWrite`). A save is only reached after a trial
  load (`demos/vision-occupancy/src/main.c:139,168`), so that it depends on the interpreter's tests whether such a
  payload can get there.
- `pack_model` of the tiny classifier checks neither that there is an input and an output nor that the encoded labels
  keep to their field (it counts characters); the firmware rejects exactly those (`MlpBlob.PackValidates`).
- The checksum of a classifier covers its weights alone. Exactly the model version, the LED mask and the labels can have a
  byte altered without the firmware noticing (`MlpBlob.AlteredByteIff`); of a vision model, the version and the name
  (`ModelEnvelope.AlteredByteIff`).
- A banded model decides by two cuts that lie a little above the thresholds; the exact widths for which this, and the
  band itself outside the tool's guard, hold for every real input are in `MlpBands.BandsAreExactIff` and `MlpBands.GuardIsExact`.
- Once two capture buffers are lost to failed re-enqueues the drain thread waits for a frame that cannot come
  (`CaptureBuffers.DriverStarvesIff`).

## Assumptions

- Sequence numbers do not wrap: a push requires a tail below the largest 32-bit number. Counters are unbounded.
- A torn slot fails its CRC (`SpoolSlot.TearDetected`). This is an assumption only for records that reach beyond the first
  sector: `SpoolSlot.ShortRecordsTearAtomically` proves it for the others. Recovery after failed writes
  (`SpoolModel.CrashDuringPushAfterErrors`, `Spool.PowerLossAfterErrors`) does not need it, and a single altered byte is
  detected without it (`SpoolSlot.AlteredPayloadIsBad`).
- A single-sector write lands or does not. An interrupted flash erase has erased any subset of its sectors, and
  programming goes upward; the CRC detects what this tears (`ModelStore.CrcDetects`, stated per image).
- `Gateway` has no disk errors besides a failing boot scan, and its records are not empty.
- One installer at a time; the interpreter's two tests are deterministic functions of the model's bytes.
- Multi-byte fields that the C code copies as structs are little-endian.
- Zephyr's ring buffer is not part of the repository and is modelled from its use: put and get move as many bytes as they can.
- The square root and the exponential are functions with their usual laws.

## Model

| member | source | states |
|---|---|---|
| Bytes.CrcCheckValue | demos/gateway/src/spool.c:135 | the CRC-32 of this project has the standard check value 0xCBF43926 |
| CrcDetection.AlteredByteShows | demos/gateway/src/spool.c:171-174 | one altered byte, wherever it is and whatever it becomes, alters the CRC-32: proved of the checksum, not assumed |
| SpoolSlot.RecordReadsBack | demos/gateway/src/spool.c:131-139 | the three sectors a push writes pass the reader's tests and hold exactly the sequence number and payload |
| SpoolSlot.RecordLayout | demos/gateway/src/spool.c:131-139 | magic, number, length, checksum, payload and zeros of a stored record at their offsets; the longest record leaves one byte of the three sectors |
| SpoolSlot.AlteredPayloadIsBad | demos/gateway/src/spool.c:171-183 | a stored record with any one byte of its payload altered on the medium is never delivered |
| SpoolSlot.ShortRecordsTearAtomically | demos/gateway/src/spool.c:141-142 | records that fit the first sector tear atomically, with no assumption on the CRC: any subset of sectors shows the old record or the new one |
| SpoolSlot.TornCell | demos/gateway/src/spool.c:137-152 | any subset of the sectors of a push shows the old record, the new one, or a header with a bad body; complete and absent writes are not torn |
| SpoolSlot.TornHeaderCell | demos/gateway/src/spool.c:137-142 | without any assumption on the CRC, a torn slot carries the new sequence number or the old one |
| SpoolRing.RecoveryScan | demos/gateway/src/spool.c:70-96 | minimum, maximum and clamp of the scanned headers give a window that holds every record of the last lap, and only those |
| SpoolRing.RebootKeepsTheQueue | demos/gateway/src/spool.c:70-96 | in a clean ring the scan recovers exactly the queue that was in RAM |
| SpoolRing.RecoveredMidWrite | demos/gateway/src/spool.c:141-152 | a scan in the middle of a push finds the old occupant of the slot or not, everything between, and the new record or not |
| SpoolModel.PushAppends | demos/gateway/src/spool.c:123-152 | in every state a run with failing writes can reach, a push appends its record; a full ring first gives up its oldest slot |
| SpoolModel.PushLosesNothingIff | demos/gateway/src/spool.c:107-154 | a push keeps every queued record and adds its own if and only if the spool is ready, the record fits, the write succeeds, and the ring is not full of records |
| SpoolModel.FullRingLosesItsOldest | demos/gateway/src/spool.c:124-129 | an input on which a record is lost: a push onto a full ring |
| SpoolModel.PushAllQueues | demos/gateway/src/spool.c:107-154 | after any number of pushes in a row the newest records that fit are queued in order, as many as there are slots, behind the records of the old slots that are left |
| SpoolModel.LastPushIsQueued | demos/gateway/src/spool.c:123-152 | after any pushes in a row the last record, if it fits, is the last one queued |
| SpoolModel.PeekReturnsFront | demos/gateway/src/spool.c:156-191 | peek returns the front unchanged and loses nothing but bad slots, each counted as a drop; it returns 0 if and only if the queue is empty or its front is the empty record; a read error changes nothing |
| SpoolModel.EmptyRecordBlocks | demos/gateway/src/spool.c:186-190 | with an empty record at the front no peek, after any number of earlier ones and any read errors, has anything to publish, and the queue behind it stays |
| SpoolModel.CommitRemovesFront | demos/gateway/src/spool.c:193-213 | commit removes exactly the peeked record from the queue, also if its write fails, and blanks its slot if not |
| SpoolModel.CommitForgetsIff | demos/gateway/src/spool.c:193-213 | a reboot does not bring a committed record back if and only if the commit's sector landed |
| SpoolModel.DrainTurn | demos/gateway/src/main.c:575-582 | one turn of the drain loop, with any driver answers, publishes the front and removes exactly it, or finds nothing to publish, or stops at a read error |
| SpoolModel.WipeEmpties | demos/gateway/src/spool.c:215-233 | after a wipe the queue is empty; disk and counters agree if and only if no header is left beyond the point where the wipe stopped |
| SpoolModel.RebootAfterWipe | demos/gateway/src/spool.c:224-230 | after a wipe that stopped early a reboot recovers the queued records not reached, in order, and nothing else |
| SpoolModel.RingIsBoundedFifo | demos/gateway/src/spool.c:107-213 | with intact slots the ring is a bounded FIFO that drops its oldest element when full: every live number's slot holds its record, live slots are distinct modulo the ring size |
| SpoolModel.RebootKeepsQueue | demos/gateway/src/spool.c:57-105 | a reboot between operations recovers the same queue and a state that keeps all invariants |
| SpoolModel.RebootAfterWriteErrors | demos/gateway/src/spool.c:57-105 | after any failed writes a reboot recovers the live queue whole and in order, between records left by failed commits and at most one left by a failed push |
| SpoolModel.CrashDuringPushAfterErrors | demos/gateway/src/spool.c:123-152 | power loss inside a push, in every state reachable with failing writes: the queue with room made is recovered whole and in order |
| SpoolModel.CrashDuringPush | demos/gateway/src/spool.c:123-152 | power loss inside a push, any subset of sectors: only the new record may be absent and only the evicted one may reappear, first |
| SpoolModel.CrashDuringCommitAfterErrors | demos/gateway/src/spool.c:200-211 | power loss inside a commit, in every state reachable with failing writes: the queue is recovered whole and in order, with or without the record being committed |
| SpoolModel.CrashDuringCommit | demos/gateway/src/spool.c:200-211 | power loss inside a commit when no write failed before: the record being committed is gone or reappears, nothing else changes |
| SpoolModel.ApplyBalances | demos/gateway/src/spool.c:107-233 | every operation in every state, with every driver answer and a wipe stopping anywhere, balances the counters |
| SpoolModel.ApplyKeeps | demos/gateway/src/spool.c:107-233 | every operation, with every driver answer, keeps the ring invariant; a wipe keeps it if and only if it reaches every header |
| SpoolModel.Conservation | demos/gateway/src/spool.c:107-233 | over every run from every state, with failing writes and wipes that stop anywhere: initial + pushed + oversize rejects = drained + drops + queued + wiped |
| SpoolModel.RunKeepsRing | demos/gateway/src/spool.c:107-233 | between reboots the ring invariant holds throughout every run whose wipes reach every header |
| SpoolModel.StatsCountGoesStale | demos/gateway/src/spool.c:124-151 | stats.count follows the record count through every operation except, exactly, a failed write on a full ring |
| Spool.Spool.constructor | demos/gateway/src/spool.c:33-39 | RAM is zero at power-up and the spool is not ready |
| Spool.Spool.Init | demos/gateway/src/spool.c:57-105 | the scan loop over raw headers computes the boot state of the ring; driver errors leave the state alone |
| Spool.Spool.Push | demos/gateway/src/spool.c:107-154 | the in-place push is the model's push on every branch, driver errors and torn sectors included |
| Spool.Spool.LoadFront | demos/gateway/src/spool.c:166-174 | the five tests on bytes accept a slot exactly when the ring has the wanted record there and it fits the buffer |
| Spool.Spool.Peek | demos/gateway/src/spool.c:156-191 | the skip loop is the model's peek, with the driver's error codes |
| Spool.Spool.Commit | demos/gateway/src/spool.c:193-213 | the in-place commit is the model's commit; counters move even if the write fails |
| Spool.Spool.Wipe | demos/gateway/src/spool.c:215-233 | the wipe loop zeroes headers up to the first failing write and resets the counters in any case |
| Spool.Spool.PublishFront | demos/gateway/src/main.c:575-582 | one turn of the drain publishes exactly the front, or nothing at a read error, the end or an empty record |
| Spool.Spool.Drain | demos/gateway/src/main.c:574-584 | the drain loop, with any driver answers, publishes a prefix of the queue in order and leaves exactly the rest; it ends at the limit, the end, an empty record or a read error |
| Spool.LongDrainEmptiesIff | demos/gateway/src/main.c:574-584 | a long enough drain publishes the whole queue if and only if no queued record is empty |
| Spool.PowerLossDuringPush | demos/gateway/src/spool.c:123-152 | on real sectors, no write having failed before: any subset of the three sectors landing, boot recovers the old queue, or the queue with room made, with the new record or without |
| Spool.PowerLossAfterErrors | demos/gateway/src/spool.c:123-152 | on real sectors, in every state reachable with failing writes and without assumptions on the checksum: the queue with room made is recovered whole and in order |
| SpoolRuns.StepKeeps | demos/gateway/src/spool.c:57-233 | operations with failing writes, reboots and power losses inside a push, a commit or a wipe keep the ring invariant and the order of pushes |
| SpoolRuns.QueueIsPushed | demos/gateway/src/spool.c:57-233 | in every such run, what is queued or has just been recovered was pushed, each push at most once, in push order |
| Gateway.StepKeeps | demos/gateway/src/main.c:537-587 | every event, power loss inside a push, a commit or a wipe included, keeps the invariant |
| Gateway.RunKeeps | demos/gateway/src/main.c:537-587 | every run keeps the invariant |
| Gateway.StoreAndForward | demos/gateway/src/main.c:437-587 | for every run, with any answers of the client: each record built is live, refused live, accepted, or lost offline or oversize; each accepted one is published, queued, evicted, wiped, torn, or refused and committed all the same; publication is in push order; a record goes out twice only across a reboot between its publish and its commit |
| Gateway.BuildLosesNothingIff | demos/gateway/src/main.c:280-284 | building a record keeps it and everything queued if and only if the client takes it, or offline the spool is ready, the record fits and the ring has room |
| Gateway.StepMissingIff | demos/gateway/src/main.c:437-587 | an event makes a record missing, so that neither the client nor the disk has it, if and only if its guard says so; what is missing stays so |
| Gateway.NothingMissingIff | demos/gateway/src/main.c:437-587 | at the end of any run a record built is neither with the client nor on the disk if and only if some event of the run fails its guard |
| Gateway.NothingMissingMeans | demos/gateway/src/main.c:437-587 | with nothing missing, every record built live went out and every record spooled is on the wire or in the queue |
| Gateway.WipeOfSentLosesNothing | demos/gateway/src/main.c:574-584 | publish, reboot, wipe: the queued copy is given up and nothing is lost |
| GatewayLoop.Loop.constructor | demos/gateway/src/main.c:472-475 | after the boot scan the loop starts in a state of the run model |
| GatewayLoop.Loop.Route | demos/gateway/src/main.c:450-455 | online the record goes to the client, whatever it answers, and the spool stays; offline it is pushed onto the spool; exactly one record more is built, as the run model's event says |
| GatewayLoop.Loop.NextLine | demos/gateway/src/main.c:442-443 | after any arrivals the next pop delivers the oldest line or finds none; it never discards one |
| GatewayLoop.Loop.Forward | demos/gateway/src/main.c:444-456 | what is made of one line is routed and counted |
| GatewayLoop.Loop.IngestLink | demos/gateway/src/main.c:442-457 | with the interrupt handler adding lines between pops: every line popped is routed once, in order, and offline every record made of one is pushed in that order; nothing is discarded; the queue is empty in the end; the forwarded total counts the records published |
| GatewayLoop.Loop.IngestChildren | demos/gateway/src/main.c:437-459 | both links are emptied in turn, lines arriving meanwhile included; one attempt per line popped; every record built is routed once, in order, and offline pushed in that order |
| GatewayLoop.Loop.PublishOrSpool | demos/gateway/src/main.c:207-286 | the gateway's own record takes the same route: offline it is pushed |
| GatewayLoop.Loop.DrainSome | demos/gateway/src/main.c:574-584 | at most four spooled records are published, oldest first, and exactly those leave the queue whatever the client answers |
| GatewayLoop.Loop.Reconnect | demos/gateway/src/main.c:541-564 | attempts are made only when disconnected and at least a period apart; flag and timer record them |
| GatewayLoop.Loop.Tick | demos/gateway/src/main.c:537-587 | each turn is a run of the model that builds the children's records and the due own one exactly once each, then drains; offline all of them are pushed in that order and nothing goes out; online they go out in that order, then at most four of the backlog; timers, flag and totals move as the source moves them |
| LineFormat.OneMoreByte | demos/gateway/src/uart_ingest.c:119-131 | one more byte ends the current line at CR or LF and lengthens it otherwise |
| LineFormat.LinesAreTheStream | demos/gateway/src/uart_ingest.c:119-131 | the lines are the stream cut at every terminator and nowhere else |
| LineFormat.OneEventPerLine | demos/gateway/src/uart_ingest.c:75-106 | each non-empty line is exactly one of accepted, overlong or ignored |
| LineFormat.UnframeFrames | demos/gateway/src/uart_ingest.c:155-190 | an independent reader gets exactly the queued records back from the ring's bytes |
| UartIngest.ByteRing.Put | demos/gateway/src/uart_ingest.c:99-100 | the wrapping buffer appends as many bytes as fit |
| UartIngest.ByteRing.Get | demos/gateway/src/uart_ingest.c:170-183 | the wrapping buffer yields its oldest bytes |
| UartIngest.Link.LineComplete | demos/gateway/src/uart_ingest.c:75-106 | a finished line is queued, counted as dropped or ignored, and the assembler is reset |
| UartIngest.Link.Enqueue | demos/gateway/src/uart_ingest.c:95-104 | a record goes into the ring whole or not at all, and is counted accordingly |
| UartIngest.Link.Receive | demos/gateway/src/uart_ingest.c:119-131 | one byte: assembler state, queue and counters remain what the stream so far says |
| UartIngest.Link.Isr | demos/gateway/src/uart_ingest.c:108-133 | for any chunking of any stream, exactly the specified payloads are queued in order while they fit, and the counters balance; between two lines, a whole line queues what follows the 16-byte prefix if it has that prefix and 17 to 1023 bytes and there is room, is counted as dropped for lack of room or from 1024 bytes on, and changes nothing otherwise |
| UartIngest.Link.Discard | demos/gateway/src/uart_ingest.c:175-179 | the discard loop ends and stops at the next record |
| UartIngest.Link.Pop | demos/gateway/src/uart_ingest.c:155-190 | pop reports empty exactly when no record is queued; delivers the oldest payload, or discards exactly that one when the buffer is too small, which a buffer of one line never is |
| PngStream.PngSizeIs | demos/vision-occupancy/src/png_gray.c:60-147 | the stream has exactly 63 + raw + 5 bytes per block |
| PngStream.MaxSizeSuffices | demos/vision-occupancy/src/png_gray.h:20 | for all dimensions the advertised size is enough if and only if there are at most 13 blocks |
| PngFormat.SumsOfFill | demos/vision-occupancy/src/png_gray.c:127-128 | both Adler-32 sums of a stretch of equal bytes in closed form |
| PngFormat.SumsJoin | demos/vision-occupancy/src/png_gray.c:127-128 | the Adler-32 sums of two stretches combine as RFC 1950 has it |
| PngFormat.AdlerOfWhiteLine | demos/vision-occupancy/src/png_gray.c:127-128 | the Adler-32 of a white line of 320 pixels, whose sums exceed the modulus, is 0xE44A3ED0 |
| PngFormat.AdlerCheckValue | demos/vision-occupancy/src/png_gray.c:127-128 | the Adler-32 of this project has the standard check value 0x091E01DE |
| PngStream.TwoByTwo | demos/vision-occupancy/src/png_gray.c:60-147 | the whole stream of a picture of four pixels, byte by byte |
| PngStream.InflateWhole | demos/vision-occupancy/src/png_gray.c:93-132 | the zlib stream has a valid header, block headers and Adler-32 |
| PngStream.RoundTrip | demos/vision-occupancy/src/png_gray.c:60-147 | for every image of at least one pixel the independent decoder accepts the output and returns the same width, height and pixels |
| PngStream.DecodesIff | demos/vision-occupancy/src/png_gray.c:60-147 | the output is a picture if and only if it has a pixel: the decoder rejects it otherwise |
| PngGray.PngWriter.PutBytes | demos/vision-occupancy/src/png_gray.c:24-35 | append or set the sticky error; nothing beyond the capacity is written |
| PngGray.PngWriter.PutBe32 | demos/vision-occupancy/src/png_gray.c:37-43 | append four big-endian bytes |
| PngGray.PngWriter.PutChunk | demos/vision-occupancy/src/png_gray.c:45-58 | append length, tag, payload and CRC, or fail because they do not fit |
| PngGray.PngWriter.PatchBe32 | demos/vision-occupancy/src/png_gray.c:141 | overwrite four bytes and no others |
| PngGray.StartImage | demos/vision-occupancy/src/png_gray.c:68-96 | signature, header and the start of the data chunk, or an error because even these do not fit |
| PngGray.ScanlineByte | demos/vision-occupancy/src/png_gray.c:112-124 | row and column counters address the right byte of the virtual scanlines |
| PngGray.AdlerStep | demos/vision-occupancy/src/png_gray.c:126-128 | the incremental sums modulo 65521 are the sums of the whole prefix |
| PngGray.NextByte | demos/vision-occupancy/src/png_gray.c:113-124 | the cursor yields the next scanline byte, also for w = 65535, where the counter wraps |
| PngGray.ReadsInsideIff | demos/vision-occupancy/src/png_gray.c:100-124 | the encoder reads only pixels that exist if and only if the image has columns or at most one row |
| PngGray.EmitBlock | demos/vision-occupancy/src/png_gray.c:112-129 | one block emits exactly the next stretch of scanlines and carries row, column and sums on |
| PngGray.StreamBlocks | demos/vision-occupancy/src/png_gray.c:98-132 | the loop emits exactly the stored-block stream and its Adler-32 |
| PngGray.FinishImage | demos/vision-occupancy/src/png_gray.c:138-146 | patching the length and appending the CRC completes the data chunk |
| PngGray.Encode | demos/vision-occupancy/src/png_gray.c:60-147 | for every image whose pixels exist, those without any included: success exactly when the whole stream fits, with exactly that stream; never a write past the given size |
| Camera.PixelInFrame | demos/vision-occupancy/src/vision_camera.c:270-275 | every pixel read lies inside the frame buffer |
| Camera.Rgb565Fields | demos/vision-occupancy/src/vision_camera.c:77-85 | the luma of an RGB565 pixel from its five, six and five bits |
| Camera.YuyvLuma | demos/vision-occupancy/src/vision_camera.c:88-91 | the luma of a YUYV pixel is its even byte |
| Camera.RgbLuma | demos/vision-occupancy/src/vision_camera.c:106-107 | which two bytes of the frame make an RGB565 pixel |
| Camera.BgrxLuma | demos/vision-occupancy/src/vision_camera.c:94-97 | a BGRX32 pixel is blue, green, red and a byte unused, weighted 29, 150 and 77 |
| Camera.CutsPartition | demos/vision-occupancy/src/vision_camera.c:255-264 | the floor-divided cuts tile the crop: every line has exactly one owner and no box is empty |
| Camera.PixelContributesOnce | demos/vision-occupancy/src/vision_camera.c:250-281 | each pixel of the centred square contributes to exactly one output, the others to none |
| Camera.AverageIsBetween | demos/vision-occupancy/src/vision_camera.c:265-278 | each output lies between the darkest and the brightest pixel of its box |
| Camera.SumBox | demos/vision-occupancy/src/vision_camera.c:270-277 | the nested loops sum and count exactly the pixels of the box |
| Camera.GrayPixel | demos/vision-occupancy/src/vision_camera.c:256-278 | one output is the average of its box; the guards against empty boxes never fire |
| Camera.FrameToGray96 | demos/vision-occupancy/src/vision_camera.c:250-281 | for frames that are not portrait, every one of the 96 x 96 outputs is its box's average |
| Camera.LonePixelInGray | demos/vision-occupancy/src/vision_camera.c:250-280 | a lone pixel shows in exactly the output whose box, of 96 by 96 in the centred square, it lies in, divided by the size of the box |
| Camera.CropInsideIff | demos/vision-occupancy/src/vision_camera.c:252-253 | every column read lies in the frame if and only if the frame is not portrait; the 32-bit crop origin wraps otherwise |
| Camera.SnapshotFits | demos/vision-occupancy/src/main.c:872-879 | every capture size that leaves a pixel after decimation fits the frame buffer, and its PNG fits the PNG buffer |
| Camera.SnapPixel | demos/vision-occupancy/src/vision_camera.c:296-306 | one decimated pixel is the average of its d x d box |
| Camera.LonePixelInSnapshot | demos/vision-occupancy/src/vision_camera.c:296-306 | a lone pixel shows in exactly the output (x / d, y / d), divided by d * d |
| Camera.DecimationIsLeast | demos/vision-occupancy/src/vision_camera.c:290-291 | the decimation is the least factor by which the frame fits 320 x 180 |
| Camera.SnapRowsAt | demos/vision-occupancy/src/vision_camera.c:306 | output (dx, dy) is at dy * w + dx |
| Camera.FrameToSnapshot | demos/vision-occupancy/src/vision_camera.c:287-311 | the snapshot holds the decimated rows in order, with the reported dimensions; the rest of the buffer stays |
| Snapshot.FrameIsOwned | demos/vision-occupancy/src/main.c:886-980 | under every interleaving neither frame, dimensions nor text are written from the hand-off until the worker is through; no token is lost; the worker reads what was handed over, once each, whole and in order |
| Snapshot.RequestIsServed | demos/vision-occupancy/src/main.c:886-980 | from every state in which nothing is under way, a request has a run in which exactly the shot captured for it is handed over and uploaded, and after which nothing is under way |
| Snapshot.NothingUnasked | demos/vision-occupancy/src/main.c:928-980 | no run hands over more shots than requests went through |
| CaptureBuffers.DriverStarvesIff | demos/vision-occupancy/src/vision_camera.c:47-335 | a buffer being converted is not the driver's; the driver always has one unless a re-enqueue failed; the drain thread waits in vain exactly when two did, and then in every continuation |
| CaptureBuffers.FrameArrives | demos/vision-occupancy/src/vision_camera.c:47-72 | while neither thread is at work, any buffer of the driver's can bring the consumer its frame, and the buffer before goes back to the driver |
| ModelEnvelope.BlobFields | demos/vision-occupancy/src/model_store.c:46-58 | every field of a wrapped blob reads back |
| ModelEnvelope.BlobLayout | demos/vision-occupancy/src/model_store.c:46-58 | the header byte by byte; the name is cut to 15 bytes and padded with zeros |
| ModelEnvelope.ValidIff | demos/vision-occupancy/src/model_store.c:21-44 | over any bytes: valid if and only if text, version, length and checksum are those of the payload that follows |
| ModelEnvelope.AlteredByteIff | demos/vision-occupancy/src/model_store.c:21-44 | a valid blob with one byte altered is still valid if and only if the byte is of the model version or the name |
| ModelEnvelope.BuildsIff | demos/vision-occupancy/tools/pack_model.py:35-39 | the packing tool takes exactly flatbuffers of at most 524256 bytes |
| ModelEnvelope.WrapValidates | demos/vision-occupancy/src/model_store.c:21-58 | a wrapped payload validates if and only if it is not empty and not too long |
| ModelEnvelope.BuiltValidates | demos/vision-occupancy/tools/pack_model.py:35-51 | whatever the packing tool builds the firmware accepts, with the same payload and version |
| ZipWalk.FindStored | demos/vision-occupancy/src/main.c:227-266 | with unbounded sizes the walk ends, reads only inside the body, and returns a wanted payload inside it or the right refusal |
| ZipWalk.FlagBits | demos/vision-occupancy/src/main.c:246-252 | encryption is bit 0 of the flags, a data descriptor bit 3 |
| ZipWalk.FirstHeader | demos/vision-occupancy/src/main.c:234-257 | what the walk makes of a first local header, byte by byte |
| ZipWalk.NoHeader | demos/vision-occupancy/src/main.c:234-236 | a body that does not start with a local header is no zip |
| ZipWalk.LocalLayout | demos/vision-occupancy/src/main.c:239-244 | a local entry has its fields where section 4.3.7 of the APPNOTE puts them |
| ZipWalk.TurnIsExactIff | demos/vision-occupancy/src/main.c:242-261 | with 32-bit sizes a turn of the walk is the one proved if and only if offset plus recorded size does not wrap into the body |
| ZipWalk.WrappingTurn | demos/vision-occupancy/src/main.c:249-261 | an entry whose size wraps is truncated for the walk proved; the 32-bit one looks outside the body or goes on |
| ZipWalk.Walk32Is | demos/vision-occupancy/src/main.c:237-265 | for every archive, what the 32-bit walk does: it is the walk proved as long as no entry wraps; at the first that does it looks outside the body if the entry is stored and unencrypted, and goes on from inside the body otherwise |
| ZipWalk.Walk32NeedNotEnd | demos/vision-occupancy/src/main.c:237-261 | a 30-byte body on which the 32-bit walk never ends |
| ZipWalk.Walk32LooksOutside | demos/vision-occupancy/src/main.c:252-253 | a 30-byte body on which the 32-bit walk looks outside it |
| ZipWalk.EntryReads | demos/vision-occupancy/src/main.c:239-244 | the walk's offsets read a local entry as section 4.3.7 of the APPNOTE lays it out |
| ZipWalk.WalkChooses | demos/vision-occupancy/src/main.c:237-265 | on well-formed entries the walk picks exactly the entry that should be picked, or refuses for the right reason |
| ZipWalk.WalkArchive | demos/ml-model-update/src/main.c:623-663 | the same for a whole archive and any kind of wanted payload |
| ZipWalk.FirstFound | demos/vision-occupancy/src/main.c:237-257 | the first stored, unencrypted, wanted entry is found, whatever follows |
| ModelInstall.MemMove | demos/vision-occupancy/src/main.c:288 | an overlapping move delivers the old bytes |
| ModelInstall.WrapInPlace | demos/vision-occupancy/src/model_store.c:46-58 | the header is written in front of a payload that stays where it is |
| ModelInstall.Settle | demos/vision-occupancy/src/main.c:286-302 | an IOTV entry is moved to the front verbatim, a raw model is moved and wrapped, the rest is refused untouched |
| ModelInstall.Normalize | demos/vision-occupancy/src/main.c:273-303 | the staging buffer starts with exactly the normalised blob, or is unchanged |
| ModelInstall.WrappedModelValidates | demos/vision-occupancy/src/main.c:292-300 | a raw model that fits becomes a blob that validates |
| ModelInstall.RawModelIsWrapped | demos/vision-occupancy/src/main.c:292-301 | a flatbuffer that is no zip, with the text TFL3 at byte 4, becomes a valid blob of version 0 named "unversioned" |
| ModelInstall.BlobStays | demos/vision-occupancy/src/main.c:286-291 | a body that starts with the text IOTV is taken as it is |
| ModelInstall.OthersRefused | demos/vision-occupancy/src/main.c:302 | what is neither zip, blob nor flatbuffer is refused |
| ModelInstall.ZippedBlobComesBack | demos/vision-occupancy/tools/pack_model.py:35-51 | a stored zip of a built blob comes back verbatim and validates |
| ModelInstall.ZippedRawModelIsWrapped | demos/vision-occupancy/src/main.c:273-303 | a zip whose first stored model entry is a flatbuffer gives that flatbuffer, wrapped |
| ModelInstall.Device.constructor | demos/vision-occupancy/src/main.c:108-112 | after power-up no model is active |
| ModelInstall.Device.InitInterp | demos/vision-occupancy/src/vision_infer.cpp:45-56 | a schema mismatch leaves the old interpreter alone; any other failure leaves none |
| ModelInstall.Device.Activate | demos/vision-occupancy/src/main.c:138-166 | trial load, commit or rollback: afterwards the interpreter is live over exactly the resident active bytes |
| ModelInstall.Device.InstallFromStaging | demos/vision-occupancy/src/main.c:125-173 | accepted: active, and persisted if the flash works; rejected: active bytes, length, source, flash and running model unchanged |
| ModelInstall.Device.InstallBuiltin | demos/vision-occupancy/src/main.c:176-184 | the built-in model, wrapped as version 1, goes through the same transaction |
| ModelInstall.Device.PushCloud | demos/vision-occupancy/src/main.c:321-345 | a push becomes active if and only if it normalises to a blob that validates and loads; otherwise nothing changes; a bare flatbuffer becomes active, under its own header, if and only if the interpreter takes it |
| ModelInstall.Device.Boot | demos/vision-occupancy/src/main.c:994-1004 | boot runs a stored model that validates and loads, else the built-in one |
| ModelInstall.Device.Reset | demos/vision-occupancy/src/main.c:733-737 | a reset forgets the stored model and returns to the built-in one; if that is rejected, active bytes, source and running model are unchanged |
| ModelRuns.WhatRunsWasDelivered | demos/vision-occupancy/src/main.c:125-184 | in every life of pushes, resets, flash errors, power losses and boots, what is active validates, loads, and is the built-in model, the first one stored, or a pushed one |
| ModelRuns.PushedModelComesBack | demos/vision-occupancy/src/main.c:994-1004 | after a push accepted and saved, every later boot runs that blob, until another is accepted or the model is reset |
| ModelRuns.ResetModelStaysAway | demos/vision-occupancy/src/main.c:733-737 | after a completed reset every later boot runs the built-in model, until a push is accepted |
| ModelRuns.CutPushBoots | demos/vision-occupancy/src/main.c:166-171 | after power loss inside a push's save the next boot runs the old model, the pushed one or the built-in one |
| ModelStore.Store.Erase | demos/vision-occupancy/src/model_store.c:77 | an erase that fails has erased some subset of its sectors |
| ModelStore.Store.Save | demos/vision-occupancy/src/model_store.c:60-88 | size check, erase, write; each failure leaves exactly the image of its stage |
| ModelStore.Store.Invalidate | demos/vision-occupancy/src/model_store.c:140-152 | erases the sector with the header |
| ModelStore.Store.LoadInto | demos/vision-occupancy/src/model_store.c:90-138 | loads exactly what a reader of the partition accepts, with the source's error codes |
| ModelStore.SaveThenLoad | demos/vision-occupancy/src/model_store.c:60-138 | loading after a completed save returns the same blob |
| ModelStore.CrashDuringErase | demos/vision-occupancy/src/model_store.c:77 | power loss in an erase: the whole old blob or none |
| ModelStore.CrashDuringWrite | demos/vision-occupancy/src/model_store.c:78-80 | power loss after any number of written bytes: the whole new blob if and only if its bytes are there, something else if and only if the cut is in the header of an all-0xFF payload, none otherwise |
| ModelStore.EraseForgets | demos/vision-occupancy/src/model_store.c:140-152 | an erased header sector means no model |
| ModelStore.TornNameIsLoaded | demos/vision-occupancy/src/model_store.c:40-42 | a write cut inside the name is loaded as a blob never saved if and only if the payload is all 0xFF and a missing byte of the name is not |
| ModelStore.EventIsAtomic | demos/vision-occupancy/src/model_store.c:60-152 | each save, reset or power loss leaves the old blob, the new blob or none; exactly a torn header over an all-0xFF payload leaves that payload under another name |
| ModelStore.NeverAMixture | demos/vision-occupancy/src/model_store.c:60-152 | after any history the partition loads a blob that some save was given, or the first one; never a mixture, except for the torn header of an all-0xFF payload |
| MlpBlob.PackModel | demos/ml-model-update/tools/build_model.py:37-56 | the growing weight list is W1 by rows, b1, W2 by rows, b2 |
| MlpBlob.LabelReadsBack | demos/ml-model-update/tools/build_model.py:53 | each short label is where the firmware looks for it |
| MlpBlob.PackValidates | demos/ml-model-update/tools/build_model.py:37-56 | the firmware accepts a packed model if and only if it has an input and an output and its encoded labels keep to their field |
| MlpBlob.PackLayout | demos/ml-model-update/tools/build_model.py:45-56 | a packed blob field by field |
| MlpBlob.ValidIff | demos/ml-model-update/src/main.c:222-247 | over any bytes: valid if and only if text, version and dimensions are admissible, the length is the one they prescribe, and the stored checksum is that of the weights |
| MlpBlob.ValidIsPacked | demos/ml-model-update/src/main.c:222-247 | after the header of a valid blob come the words of its weights and nothing else, and its checksum is theirs |
| MlpBlob.AlteredByteIff | demos/ml-model-update/src/main.c:222-247 | a valid blob with one byte altered is still valid if and only if the byte is of the model version, the LED mask or the labels; an altered weight is a checksum mismatch |
| MlpBlob.ValidFits | demos/ml-model-update/src/main.c:222-247 | an accepted blob fits the resident buffer |
| MlpBlob.WordsReadBack | demos/ml-model-update/tools/build_model.py:63-64 | the weights read back are the weights packed, in order |
| MlpBlob.PackedNetIsMeaning | demos/ml-model-update/tools/build_model.py:59-69 | reading the flat weights as matrices gives the matrices that were packed |
| MlpEngine.FirstLayerRow | demos/ml-model-update/src/main.c:289-298 | the engine's flat index i * n_in stays in the weights and addresses row i of W1 |
| MlpEngine.SecondLayerRow | demos/ml-model-update/src/main.c:291-306 | the same for W2 |
| MlpEngine.Neuron | demos/ml-model-update/src/main.c:295-299 | bias plus the products in order is the dot product plus bias |
| MlpEngine.HiddenLayer | demos/ml-model-update/src/main.c:294-301 | the first loop computes relu(W1 x + b1) |
| MlpEngine.OutputLayer | demos/ml-model-update/src/main.c:302-312 | the second loop computes W2 h + b2, and its running best is the first maximum |
| MlpEngine.Confidence | demos/ml-model-update/src/main.c:313-319 | the reported score is the softmax of the winner: times the sum of exp(o[k] - o[best]) over all classes it is 1; it lies between 1 / classes and 1, and is 1 exactly for a single class |
| MlpEngine.Infer | demos/ml-model-update/src/main.c:280-323 | on every valid blob the class is the first maximum of the matrix form, and the score is its softmax |
| MlpEngine.EngineMeetsModel | demos/ml-model-update/tools/build_model.py:59-74 | the engine on a packed model computes the model's own matrices |
| MlpEngine.BandedModelDecides | demos/ml-model-update/tools/build_model.py:77-95 | end to end, the engine reports for a packed banded model the class that the two cuts prescribe, for all real inputs |
| MlpEngine.BandedModelOutsideGuard | demos/ml-model-update/tools/build_model.py:98-109 | end to end, outside the guard the engine reports for a packed banded model the band of the input, for all real inputs |
| MlpNet.FirstMaxIsUnique | demos/ml-model-update/tools/build_model.py:74 | the first maximum is unique, so engine and reference agree |
| MlpBands.BandsAreExact | demos/ml-model-update/tools/build_model.py:85-88 | class 0 up to lo + 1/(4K), class 2 above hi + (K(hi - lo) + 0.5)/(2H - K), class 1 between, for all reals |
| MlpBands.BandsAreExactIff | demos/ml-model-update/tools/build_model.py:85-88 | this holds for all reals if and only if the width exceeds 0.0004995 or is 0.00024925 |
| MlpBands.GuardIsExact | demos/ml-model-update/tools/build_model.py:98-109 | outside the guard every real input gets its band's class if and only if the width is below 9.9945; the tool only samples a grid |
| MlpDelivery.ZippedModelComesBack | demos/ml-model-update/src/main.c:623-663 | a stored zip of a packed model is found to hold exactly it |
| MlpDelivery.Classifier.Install | demos/ml-model-update/src/main.c:249-276 | a valid blob fits, becomes resident and is kept in the settings store if asked; any other changes nothing; no valid blob with a byte of its weights or of their checksum altered is accepted |
| MlpDelivery.Classifier.Boot | demos/ml-model-update/src/main.c:794-797 | a saved blob that reads and validates wins over the built-in one |
| MlpDelivery.Classifier.Reset | demos/ml-model-update/src/main.c:570-573 | a reset forgets the saved blob and returns to the built-in one |
| MlpDelivery.Classifier.Classify | demos/ml-model-update/src/main.c:280-323 | inference over the resident blob meets its matrix form and reports its softmax |
| Vibration.OnePassIsTwoPass | demos/eiq-pdm-vibration/src/main.c:270-271 | sumsq / n - mean^2 is the mean squared deviation |
| Vibration.VarianceSign | demos/eiq-pdm-vibration/src/main.c:271-274 | it is never negative and is zero exactly when all samples agree |
| Vibration.StillMeansConstant | demos/eiq-pdm-vibration/src/main.c:269-278 | the overall magnitude is zero exactly when all readings are the same |
| Vibration.Sums | demos/eiq-pdm-vibration/src/main.c:242-247 | the loop keeps the sums of each axis |
| Vibration.Tally | demos/eiq-pdm-vibration/src/main.c:249-263 | each classified reading is one vote for its class |
| Vibration.VotesAre | demos/eiq-pdm-vibration/src/main.c:254-261 | the votes for a class are the readings the classifier put in it |
| Vibration.FaultsAdd | demos/eiq-pdm-vibration/src/main.c:257-258 | the fault sum of two stretches of readings is the sum of theirs |
| Vibration.FaultOfOne | demos/eiq-pdm-vibration/src/main.c:257-258 | one classified reading adds its probability of "unbalanced" and of "both", one that fails or has no class nothing |
| Vibration.FaultIsBounded | demos/eiq-pdm-vibration/src/main.c:257-261 | with probabilities from 0 to 1 their sum is at most the readings classified |
| Vibration.VotesAddUp | demos/eiq-pdm-vibration/src/main.c:258-261 | the votes sum to the readings classified |
| Vibration.Winner | demos/eiq-pdm-vibration/src/main.c:284-289 | the least index with the most votes |
| Vibration.Variances | demos/eiq-pdm-vibration/src/main.c:269-278 | variances per axis and their sum are those of the two-pass definition |
| Vibration.Magnitudes | demos/eiq-pdm-vibration/src/main.c:269-278 | the root mean squares and the overall magnitude are the roots of the variances and of their sum |
| Vibration.Window | demos/eiq-pdm-vibration/src/main.c:224-293 | a window yields the three root mean squares, their overall magnitude, the mean fault probability, and the majority class, or -1 exactly when nothing was classified |

## Left out

- Spool.Spool.Push: takes the record as bytes of known length; the terminating NUL, the cache flush after the write (its result is ignored) and the mutex are not modelled.
- Gateway.StoreAndForward: has neither disk write errors nor wipes that fail without a power loss; those are in `SpoolModel`, where the exceptions are stated exactly.
- UartIngest.Link.Pop: the link-index check, the timestamp of the last line and the spinlock are not modelled.
- GatewayLoop.Loop.IngestLink: interrupts fall between pops, where the spinlock puts them; lines that arrive after a link was found empty wait for the next turn.
- ModelInstall.Device.PushCloud: sizes are unbounded naturals (`ZipWalk.TurnIsExactIff` says when 32-bit ones agree); the server's error page is not logged into the staging buffer.
- ModelInstall.Device.InitInterp: what the interpreter accepts is two arbitrary predicates; the TensorFlow Lite Micro interpreter and its arena are not modelled.
- MlpEngine.Infer: float rounding is not modelled; `exp` is any positive monotone function with exp(0) = 1.
- MlpDelivery.Classifier.Install: the settings store replaces its value whole or not at all; the chunked transfer is not modelled.
- PngGray.Encode: covers the images whose pixels exist; for the others `PngGray.ReadsInsideIff` shows that a pixel is read that is not there.
- Camera.FrameToGray96: covers frames that are not portrait; for the others `Camera.CropInsideIff` shows that columns outside the frame are read.
- Vibration.Window: the timing of the window is not modelled; readings that fail are not in the input.
- Sequence-number wrap-around of the spool and concurrent installers sharing the staging buffer: the invariants do not hold there as coded.
- Network, MQTT, TLS, time, provisioning, shell, GPIO, I2C, ADC and logging: input and output over libraries that are not part of this model; publishing appends to a trace.
- Building the child and gateway records with cJSON and iotcl: a record is an optional non-empty payload.
- Command parsing, LED modes, interval ranges, occupancy debouncing, health strings: one-branch or table look-up code without state to keep.
