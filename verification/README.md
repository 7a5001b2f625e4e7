# Prukka in Dafny

A model of the parts of Prukka whose correctness does not show in one function body: the
loopback audio rings of the macOS, Windows and Linux drivers, the streaming speech helper, the
concurrent protocols, the crash-safe engine bundle swap, and the parsers and codecs on its
wires. Each part has an independent meaning (an unbounded timeline, a bounded queue, a value
tree, the one way to cut a stream of frames, a map) and the code's own steps are proved to keep it.

    dafny verify dfyconfig.toml

How it is laid out:

- `MacRing`, `MacRingThreads`, `MacLoopback`, `ZeroTimeStamps`, `ClientLedger`: the macOS driver.
  The ring's 64-bit words are tag and payload; Float32 addition is the parameter `add` on 32-bit
  patterns, whose zero is the pattern 0. RingAdd racing on the ring is a machine whose load and
  compare-exchange are separate steps, spurious failures included. A `log` of contributions in
  compare-exchange success order is the timeline the ring is a cache of.
- `RingCells`, `BoundedFifo` (both in Rings.dfy), `WindowsRing`, `PlayRing`: rings that overwrite
  the stalest element, against one bounded queue. `PositionClock`, `WaveStream`: the Windows
  position clock and the stream object around it, in 64-bit words. `LinuxLoop`: the ALSA timer tick.
- `PcmCodec`, `Endpointer`, `SttWorker`: the streaming speech helper from bytes to output lines.
  A PCM sample is its 16-bit pattern; whether a frame is loud enough is the parameter `voiced`.
- `Pool`, `LazySource`, `EngineSlot`, `Seqlock`: concurrent protocols as interleaved steps. A run
  is any sequence of enabled steps; `Exec` gives the state it ends in. Atomics and locked
  sections are single, sequentially consistent steps.
- `BundleSwap`, `DriverInstall`: filesystem steps each of which fails, or (for the swap) kills
  the process, as a fault plan decides; results hold for every plan.
- `Wav`, `Resampler`, `StrictJson`, `ProcessTree`, `Repetition`: parsers and algorithms against
  declarative specifications. The resampler's filter arithmetic is the parameter `Dsp`.
- `Bytes`, `Bits`, `Division`, `Memory`, `Wrappers`: shared words, bit operations, quotients and
  bulk moves.

Where the code and its own words disagree, the model follows the code:

- The webcam feeder's comment says readers never see a torn frame. The reader hands on its
  fourth copy unchecked (`Seqlock.TornWhenStalled`), and a feeder killed inside its copy leaves
  an odd sequence under which torn copies pass the check (`Seqlock.TornFromOdd`). A copy that
  passes the check is whole in every run exactly if the feeder starts on an even sequence
  (`Seqlock.SafeIffEven`). Everything delivered, checked or not, is whole in every run exactly if
  each byte-wise mix of the frames is one of them (`Seqlock.DeliversWholeIff`), which for two
  frames means that they differ in at most one place (`Seqlock.TwoFramesMixClosed`).
- The driver installer takes its marker for the payload at the path. It writes the marker in
  place, so a failed write can leave it empty or whole; in the last case, with the rollback done,
  the next install of that payload is skipped (`DriverInstall.LateMarker`, `HalfRemoved`).
  `DriverInstall.Installer.InstallPayload` states exactly which failures spoil the marker, and
  `InstallAgain` that exactly those make a later install skip wrongly.
- The bundle swap is ordered so that no step that fails loses a model. It carries top-level entries of the models
  directory, and voices share the entry `tts`: a pack installed while a retired tree is still
  there makes the next recovery drop the other voices (`BundleSwap.LostVoice`). Entry names are
  never lost; files are kept exactly as `BundleSwap.Disk.RecoverBundle`, `SwapBundle` and
  `PackThenHeal` state.

## Model

| member | source | states |
|---|---|---|
| MacRing.StaleIsOlder | drivers/macos/common/plugin.c:147-157 | Within 2^31 laps the driver's 32-bit wrapping comparison refuses a generation exactly when its lap is older, and tags are equal exactly when the laps are |
| MacRing.WindowIsTight | drivers/macos/common/plugin.c:147-157 | Beyond the window it fails for every lap: one 2^31 ahead is refused, one 2^31 + 1 behind is taken as newer |
| MacRing.SlotAndLap | drivers/macos/common/plugin.c:824-829 | A ring slot and a lap name exactly one absolute frame and channel, so no two frames share a picture |
| MacRing.NothingNewer | drivers/macos/common/plugin.c:149-167 | If laps only rise at each slot, a frame newer than its slot's newest lap has nothing mixed into it |
| MacRing.LandsAtOwnSlot | drivers/macos/common/plugin.c:149-167 | The word RingAdd stores represents the slot's new newest frame: the old sum plus the sample in the same lap, the sample alone in a new one |
| MacRing.LandsElsewhere | drivers/macos/common/plugin.c:149-167 | A contribution changes what no other slot represents |
| MacRing.ReadIsMix | drivers/macos/common/plugin.c:169-173 | RingRead of a frame is that frame's own mix when it is the newest of its slot and silence otherwise, never another lap's audio |
| MacRingThreads.SwapKeepsPicture | drivers/macos/common/plugin.c:149-167 | A successful compare-exchange, however old the load behind it, keeps every slot a picture of its newest frame and never lowers a lap |
| MacRingThreads.StepKeepsInv | drivers/macos/common/plugin.c:149-167 | Every load, successful, failed or spurious exchange and refusal of any thread keeps the ring, the threads' knowledge and the log consistent |
| MacRingThreads.RingIsTheTimeline | drivers/macos/common/plugin.c:139-173 | In every paced interleaving of any number of RingAdd calls a read gives the frame's fold in exchange-success order or silence, each landed call is in the log exactly once, and no contribution to a slot's newest frame was refused |
| MacRingThreads.YoungIsPaced | drivers/macos/common/plugin.c:147-157 | For the first 2^31 laps since the anchor every run is paced, so the ring theorem needs no further assumption |
| MacLoopback.WriteThenRead | drivers/macos/common/plugin.c:811-859 | Reading the frames just written, at any start and up to a lap, gives what was heard there before with the samples added, and silence before the anchor |
| MacLoopback.WriteRefines | drivers/macos/common/plugin.c:811-834 | WriteMix extends the timeline by exactly its contributions that are neither before the anchor nor older than their slot, and the ring stays a picture of it |
| MacLoopback.StoreRefines | drivers/macos/common/plugin.c:149-167 | One RingAdd either leaves the ring as it is, exactly when the frame is older, or extends the timeline by that contribution |
| MacLoopback.Ring.Clear | drivers/macos/common/plugin.c:133-137 | Every word is zero, whatever was there |
| MacLoopback.Ring.Add | drivers/macos/common/plugin.c:149-167 | After any number of spurious failures exactly one word has changed, to the specified one |
| MacLoopback.Ring.WriteMix | drivers/macos/common/plugin.c:811-834 | The frame loop at any real sample time leaves the ring as the per-sample specification says, frames before the anchor touching nothing |
| MacLoopback.Ring.ReadInput | drivers/macos/common/plugin.c:836-859 | Every sample of the buffer is what the ring holds for its own frame, zero before the anchor |
| ZeroTimeStamps.StampIsLapStart | drivers/macos/common/plugin.c:752-772 | The host time stamped is not after now and less than a ring lap and one rounded tick before it, in wrapping host time |
| ZeroTimeStamps.LapsRise | drivers/macos/common/plugin.c:752-772 | Later calls under one anchor never report an earlier lap |
| ZeroTimeStamps.LapsBracket | drivers/macos/common/plugin.c:759-762 | The lap reported is the one the elapsed time is in |
| ClientLedger.AnchorsCountTransitions | drivers/macos/common/plugin.c:721-732 | Over any calls, duplicates included, the clock is anchored exactly as often as the running set goes from empty to nonempty, and at most 256 clients are known |
| ClientLedger.SlotWritten | drivers/macos/common/plugin.c:77-99 | Overwriting one slot of a table without duplicate ids changes the map it stands for at that id alone |
| ClientLedger.ClientsWhenFull | drivers/macos/common/plugin.c:86-99 | A table with no free slot knows as many clients as it has slots, so registration is refused only then |
| ClientLedger.ClientsWhenFree | drivers/macos/common/plugin.c:86-99 | A table with a free slot knows fewer |
| ClientLedger.Device.constructor | drivers/macos/common/plugin.c:60-75 | The initial table is the empty ledger |
| ClientLedger.Device.Find | drivers/macos/common/plugin.c:77-84 | The slot found holds the id, and none does when none is found |
| ClientLedger.Device.Register | drivers/macos/common/plugin.c:86-99 | An unknown id is added idle, refused exactly when 256 others are known; a known or refused one changes nothing |
| ClientLedger.Device.StopClient | drivers/macos/common/plugin.c:101-110 | The client of the slot is known and idle and no other has changed; the count stays the number of running clients |
| ClientLedger.Device.RemoveDeviceClient | drivers/macos/common/plugin.c:258-277 | The map loses exactly the id, stopped first if it ran; the count stays exact |
| ClientLedger.Device.StartIO | drivers/macos/common/plugin.c:703-737 | A known client runs afterwards and no other has changed, an unknown one is refused and nothing changes; if nobody ran, every ring word is zero, the anchor is now and the seed one more, and otherwise all three are unchanged |
| ClientLedger.Device.StopIO | drivers/macos/common/plugin.c:739-750 | The client, if known, is idle afterwards and no other has changed; otherwise nothing has |
| ClientLedger.Device.GetZeroTimeStamp | drivers/macos/common/plugin.c:752-772 | The lap stamped is the one now lies in, its sample time whole rings, its host time that many laps past the anchor in wrapping host time, under the anchor's seed |
| ClientLedger.Replay | drivers/macos/common/plugin.c:703-750 | Over any trace of calls the table is the map, every status is the ledger's, the count is the number of running clients and the seed the number of empty-to-nonempty transitions modulo 2^64 |
| RingCells.StoreEachHolds | drivers/windows/common/wave.cpp:433-440 | Appending to a ring element by element keeps the newest elements that fit, each at its position modulo the size |
| RingCells.SplitIsEach | drivers/windows/common/wave.cpp:433-440 | The two bulk moves split at the wrap store what the per-element modulo copy would |
| RingCells.ReadSplitIsTimeline | drivers/windows/common/wave.cpp:464-471 | The two bulk reads return the next stretch of the written stream |
| BoundedFifo.ReadsFollowTheStream | drivers/windows/common/wave.cpp:417-476 | For every sequence of writes and reads each read returns a span of the written stream and starts exactly behind the last one, skipping only what was overwritten |
| BoundedFifo.SpansAreOrdered | drivers/windows/common/wave.cpp:417-476 | Any two reads got disjoint spans, in order |
| BoundedFifo.NewestThatFit | drivers/windows/common/wave.cpp:417-476 | A write keeps the end of the old queue and the new data, as much as fits; a read gets all it wants or all there is |
| WindowsRing.WindowSurvivesWrap | drivers/windows/common/ring.h:10-25 | On wrapping 64-bit cursors the window is that of the unbounded ones, overrun included, while fewer than 2^64 bytes are unread |
| WindowsRing.CellSurvivesWrap | drivers/windows/common/wave.cpp:433-434 | A wrapped cursor is at the same ring cell as the unbounded one |
| WindowsRing.SharedRing.CopyTo | drivers/windows/common/wave.cpp:419-441 | The queue becomes the newest bytes that fit of what it was and the buffer |
| WindowsRing.SharedRing.CopyFrom | drivers/windows/common/wave.cpp:445-476 | The client gets the front of the queue and silence for the rest; the queue loses exactly that front |
| WindowsRing.StoreInTwo | drivers/windows/common/wave.cpp:433-440 | The in-place two-part copy leaves the ring as the per-byte modulo copy does |
| WindowsRing.RunRing | drivers/windows/common/wave.cpp:419-476 | Over any run of buffers in which the reader never falls 2^64 bytes behind, however many are written in all, every read is filled to the size asked for with what the bounded queue delivers and then zeros |
| Bits.MaskIsRemainder | drivers/macos/capture/miccapture.swift:144-160 | Masking with size - 1 is the remainder when the size is a power of two |
| PlayRing.Ring.constructor | drivers/macos/capture/miccapture.swift:155-163 | The capacity is rounded up to the next power of two, below twice the request |
| PlayRing.Ring.Push | drivers/macos/capture/miccapture.swift:176-184 | The queue keeps the newest samples that fit: the same specification as the Windows ring |
| PlayRing.Ring.Pop | drivers/macos/capture/miccapture.swift:186-200 | The output is the front of the queue and then zeros, the count says where, and the queue loses exactly that front |
| PositionClock.ElapsedIsRunTime | drivers/windows/common/position.h:12-38 | Over any timely run of state changes, repeats included, the clock reads the sum of the run intervals since the last stop |
| PositionClock.NothingOverflows | drivers/windows/common/position.h:50-56 | No value of the split formula leaves 64 bits when bufferSize and frequency times the byte rate fit |
| PositionClock.CyclicPositionExact | drivers/windows/common/position.h:40-59 | The split formula is the whole division's byte position modulo the buffer, cut down to the block boundary less than a block below it |
| PositionClock.PositionFollowsRunTime | drivers/windows/common/position.h:12-59 | Clock and formula together: the position is that of the time spent running since the last stop |
| WaveStream.Stream.SetState | drivers/windows/common/wave.cpp:300-346 | An invalid state changes nothing; a valid code is the state it names, appended to the history whose fold the clock is, and the timer runs and owns one reference exactly in the run state |
| WaveStream.Stream.AllocateBuffer | drivers/windows/common/wave.cpp:388-405 | The whole ring for a request above it, otherwise the request cut to whole blocks, losing less than a block; unchanged when the pool is out of memory |
| WaveStream.Stream.GetPosition | drivers/windows/common/wave.cpp:348-373 | Zero when stopped or without a buffer, whatever the frequency; always inside the buffer; and the exact cyclic position of the running time since the last stop |
| WaveStream.PositionInBuffer | drivers/windows/common/position.h:40-59 | Even where intermediate values overflow the position stays inside the buffer |
| LinuxLoop.OneSubtractionIff | drivers/linux/common/pcm_loop.c:82-95 | One conditional subtraction keeps every position in range if and only if the buffer holds a tick's 480 frames |
| LinuxLoop.PeriodsConserveFrames | drivers/linux/common/pcm_loop.c:155-177 | After any number of ticks the period callbacks are exactly the whole periods pumped and the counter is the rest |
| LinuxLoop.FillRing | drivers/linux/common/pcm_loop.c:75-91 | The tick's ring frames are the playback buffer's next 480 in circular order; the other frames keep what they held |
| LinuxLoop.DrainRing | drivers/linux/common/pcm_loop.c:98-123 | The capture buffer's next 480 frames are the ring's, or silence without a writer; those ring frames are cleared and nothing else changes |
| LinuxLoop.Loop.Tick | drivers/linux/common/pcm_loop.c:130-194 | Capture hears in a tick exactly what playback plays in it, or silence; the tick's ring frames are left silent, played or as they were and the others untouched; positions advance circularly, callbacks are due as counted, and a removed card changes nothing |
| LinuxLoop.Loop.RunTicks | drivers/linux/common/pcm_loop.c:75-194 | Over any number of ticks, playback starting and stopping between them, what is captured is what was played in order, and a tick of silence wherever it had stopped |
| Bits.OrIsSum | internal/core/pipeline/pcm.go:81-95 | ORing a value shifted past the bits in use is adding it |
| PcmCodec.OrOfFields | internal/core/pipeline/pcm.go:81-95 | The encoder's shifts and ORs of four 16-bit patterns are the sum of the four fields |
| PcmCodec.PackedStoreBytes | internal/core/pipeline/pcm.go:81-95 | One 64-bit little-endian store of four packed samples is their four per-sample encodings |
| PcmCodec.EncodedBytes | internal/core/pipeline/pcm.go:81-95 | Byte 2i of an encoding is the low byte of sample i, byte 2i + 1 its high byte |
| PcmCodec.EncodeS16LE | internal/core/pipeline/pcm.go:81-95 | The packed encoder writes the per-sample encoding at its place and nothing else |
| PcmCodec.AppendS16LE | internal/core/pipeline/pcm.go:63-79 | What dst held and then the encoding |
| PcmCodec.DecodeS16LE | internal/core/pipeline/pcm.go:44-53 | As many whole samples as both sides hold, in place, the rest of dst unchanged |
| PcmCodec.DecodeEncode | internal/core/pipeline/pcm.go:44-95 | Decoding the encoding gives the samples back |
| PcmCodec.EncodeDecode | internal/core/pipeline/pcm.go:44-95 | Encoding what an even number of bytes decodes to gives the bytes back |
| PcmCodec.SplitIndependence | internal/speechengine/stt.go:466-504 | However a byte stream is cut into reads the samples are those of the whole stream, and the byte carried is its odd last one |
| PcmCodec.StreamRoundTrip | internal/speechengine/stt.go:466-504 | Encoded samples cut anywhere decode to themselves with nothing pending |
| PcmCodec.StreamDecoder.CompletePending | internal/speechengine/stt.go:477-491 | The pending byte and the next complete one sample; what is left decodes on its own |
| PcmCodec.StreamDecoder.DecodeChunk | internal/speechengine/stt.go:466-504 | The reused buffer holds exactly the whole samples of carry and data, and the object carries the odd byte |
| PcmCodec.DecodeReads | internal/speechengine/stt.go:466-504 | A decoder fed any reads gives the stream's samples, and pending is true exactly when the byte count is odd |
| Endpointer.FramesAreTheStream | internal/speechengine/stt.go:546-561 | The 20 ms frames of the reads, in order, are the stream |
| Endpointer.FramesAreTwentyMs | internal/speechengine/stt.go:546-556 | A read is cut into frames of 20 ms, rounded down to a sample, but for a shorter last one |
| Endpointer.DurationIsTime | internal/speechengine/stt.go:563-603 | A duration is so many samples in nanoseconds rounded down, and the pre-roll kept is 100 ms rounded down to a sample |
| Endpointer.VoicedTimeAdds | internal/speechengine/stt.go:563-577 | Voiced time adds up over frames |
| Endpointer.SilenceIsSinceVoiced | internal/speechengine/stt.go:563-577 | Trailing silence is the time of the frames since the last voiced one |
| Endpointer.WindowMeans | internal/speechengine/stt.go:595-603 | A window's audio is the last 100 ms of the quiet frames before its first voiced one and everything from there on |
| Endpointer.CutsArePrompt | internal/speechengine/stt.go:579-593 | A window ends with enough speech and then silence or at its ceiling, neither was so before its last frame, and neither is in the rest |
| Endpointer.CutsAreUnique | internal/speechengine/stt.go:579-593 | A list of frames has one way to be cut into windows each ready no earlier than its last frame, and a rest that never is |
| Endpointer.AppendFits | internal/speechengine/stt.go:563-577 | The fields stay those of the frames since the last cut: buffer the window with its pre-roll, runs the voiced time and the trailing silence |
| Endpointer.CutFits | internal/speechengine/stt.go:579-593 | The window is cut exactly when it is ready, and is a segment exactly when enough of it is voiced |
| Endpointer.FrameStands | internal/speechengine/stt.go:546-593 | After any frame what was emitted is the segments of the cuts of the frames so far, and the state is that of the rest |
| Endpointer.SessionMakesTheCuts | internal/speechengine/stt.go:536-633 | However a stream is read, the segments are those of the one way to cut its 20 ms frames: each window as soon as enough speech ends in silence or the ceiling is reached, the rest at the end, a segment for each with enough voiced time |
| Endpointer.SpokenIsHeard | internal/speechengine/stt.go:536-633 | What comes out of a session are exactly the windows, and the rest, with enough voiced time, each ending where it ends in the stream |
| Endpointer.LiveIsTheRest | internal/speechengine/stt.go:605-608 | After any reads what is live is the window not cut yet, as soon as one of its frames is voiced |
| Endpointer.SegmentsAreTheStream | internal/speechengine/stt.go:529-532 | Each segment is the stretch of the stream that ends at its end sample, and segments are disjoint and in order |
| Endpointer.PushEnds | internal/speechengine/stt.go:546-561 | The ends of what one push returns rise from the old sample count to the new one |
| Endpointer.EnergyEndpointer.AppendFrame | internal/speechengine/stt.go:563-577 | The frames since the last cut gain the chunk and every field keeps meaning them |
| Endpointer.EnergyEndpointer.CutReady | internal/speechengine/stt.go:579-593 | The frames held are cut exactly when they are ready, and the segment is their audio exactly when enough of it is voiced |
| Endpointer.EnergyEndpointer.PushSamples | internal/speechengine/stt.go:546-561 | The frame loop gives the specified segments and state for input of any length |
| Endpointer.EnergyEndpointer.FlushAll | internal/speechengine/stt.go:610-633 | What is left becomes a segment exactly when enough of it is voiced, and nothing is held |
| Endpointer.RunSession | internal/speechengine/stt.go:278-309 | One endpointer fed any reads and flushed gives the segments of the one way to cut their frames |
| SttWorker.InvOverRuns | internal/speechengine/stt.go:338-435 | In every interleaving of reader and worker finals are accounted for, the flags say where the threads are, and what is still to come ends no earlier than what was written |
| SttWorker.WorkerKeepsItsPromise | internal/speechengine/stt.go:311-316 | Output lines have nondecreasing ends, a partial is strictly past every final before it, finals come out in submission order, and a session that ends without error has written every segment its loop submits |
| SttWorker.NewestWins | internal/speechengine/stt.go:415-423 | Whenever the live slot is full it holds the last snapshot the reader has published |
| SttWorker.TakeLiveDecodesNewest | internal/speechengine/stt.go:345-386 | Taking the slot empties it, and the worker decodes that newest snapshot exactly when it is past every final written |
| SttWorker.LinesAreTheDecodings | internal/speechengine/stt.go:338-386 | Every decoding that succeeds writes one line: the finals are the first so many submitted, the partials the snapshots that were newest when they were taken |
| SttWorker.CloseDropsLive | internal/speechengine/stt.go:425-435 | After close no live snapshot is taken |
| SttWorker.NoWakeUpIsLost | internal/speechengine/stt.go:338-435 | Whenever the worker sleeps on the condition with work or the end to see, the reader's signal is still to come |
| SttWorker.NeverStuck | internal/speechengine/stt.go:338-435 | Until the session has returned one of the two threads can move, a sleeping worker only by being signalled |
| SttWorker.ScriptIsOrdered | internal/speechengine/stt.go:278-309 | Whatever the bytes and however they are read, the read loop submits and publishes in source order |
| SttWorker.ScriptSubmits | internal/speechengine/stt.go:278-309 | For whole samples the loop submits exactly the endpointer's segments of the decoded stream |
| SttWorker.ScriptPublishes | internal/speechengine/stt.go:294-301 | After every read the loop publishes exactly what is live |
| SttWorker.SessionKeepsOrder | internal/speechengine/stt.go:278-435 | The whole helper: for any byte stream, reads and interleaving lines are ordered, partials strictly past the finals before them; a clean session over whole samples has written exactly the segments of the one way to cut its frames |
| Pool.PoolKeepsItsPromise | internal/dispatch/dispatch.go:48-104 | In every interleaving the in-flight count is exact, no job runs twice, only a job whose Submit returned nil runs, and each such job has run once when the first Close has returned |
| Pool.WorkCanMove | internal/dispatch/dispatch.go:48-104 | While accepted work is outstanding a submitter, a worker or a finishing job can move |
| Pool.QueueIsFifo | internal/dispatch/dispatch.go:48-83 | The queue never holds more than its capacity and is what is left, in order, of the jobs enqueued |
| Pool.OldestStarts | internal/dispatch/dispatch.go:48-83 | A worker starts the oldest job that waits |
| Pool.SubmitIsAnswered | internal/dispatch/dispatch.go:48-83 | A Submit is accepted exactly until Close is called and refused from then on |
| Pool.ClosingMakesProgress | internal/dispatch/dispatch.go:85-104 | After Close was called every step but a refused call uses up a finite measure |
| Pool.ClosingCanMove | internal/dispatch/dispatch.go:85-104 | And until Close has returned such a step is enabled |
| LazySource.NextStepFits | internal/lane/source.go:94-163 | Each step of a Next call, open included, keeps what is known of the fields and of the call |
| LazySource.StepKeepsInv | internal/lane/source.go:72-180 | No step of one call spoils what another call knows, for any number of Next and Close calls |
| LazySource.SourceIsOwned | internal/lane/source.go:72-180 | A source is closed at most once; once open has finished it is published exactly when there is no open error, closed if not published (a failure of that close is in the open error) and closed once any Close has returned; a failed Next always carries an error, and never the fallback for missing frames |
| LazySource.PublishedAndServedInTime | internal/lane/source.go:94-163 | A source is published, and a Next reads from it, only in a step before any Close, and published only if the opener saw its context alive after Open |
| LazySource.OpenEndsExactly | internal/lane/source.go:120-163 | Once open has finished the source is published exactly when the ingress returned one without an error, the context was alive and no Close had come; otherwise the open error is exactly what stood against it and a failure of the close that followed |
| LazySource.NextIsAnswered | internal/lane/source.go:94-118 | Past open a Next call fails with its context's end, with exactly the open error, or with exactly the closed pipe when there is none but a Close has come; in every other case the source is read |
| LazySource.FirstNextIsServed | internal/lane/source.go:94-163 | From any state before open and Close, the first Next whose ingress returns a source publishes it and is served |
| LazySource.LaterNextIsServed | internal/lane/source.go:94-118 | And so is every Next after that until a Close comes |
| LazySource.CloseFirst | internal/lane/source.go:166-180 | If Close comes before the first Next, Open is never called, whatever follows |
| LazySource.SomeCallCanStep | internal/lane/source.go:72-180 | While a call has not returned some call can step |
| EngineSlot.OneOperation | internal/control/engine.go:261-417 | With progress reports at any time, late ones too: at most one operation runs, the polled phase is terminal exactly when none does and an error exactly when it failed, the wait group counts exactly what has not left, and nothing is left when Shutdown has returned nil |
| EngineSlot.BeginsIfFree | internal/control/engine.go:365-382 | An operation begins exactly when none runs and Shutdown was not called; it is then the one polled, downloading and counted, and a refusal changes nothing |
| EngineSlot.ReportShows | internal/control/engine.go:261-289 | A report of a phase in progress is what is polled of the operation that runs, and nothing when none does |
| EngineSlot.FinishFrees | internal/control/engine.go:397-417 | When an operation ends its result is polled and the slot is free |
| EngineSlot.HaltIsFinal | internal/control/engine.go:239-259 | After halt no operation begins and the wait group never rises, in any continuation |
| EngineSlot.JoinCanMove | internal/control/engine.go:239-259 | While Shutdown joins, an operation can finish or leave or the join can return |
| Seqlock.AcceptedIsWhole | drivers/windows/webcam/source.cpp:177-191 | From an even sequence, under any byte-level interleaving and order of both copies, a copy that passes the recheck within 2^32 increments is the frame published last, whole |
| Seqlock.PassMeansQuiet | drivers/windows/webcam/source.cpp:185-190 | An even loaded sequence seen again means no increment in between, on 32-bit counters |
| Seqlock.SafeIffEven | drivers/windows/webcam/source.cpp:177-191 | A copy that passes the check within 2^32 increments is a whole frame in every run if and only if the feeder starts on an even sequence |
| Seqlock.DeliveredIsMix | drivers/windows/webcam/source.cpp:177-191 | Whatever is delivered, by the check or after the fourth attempt, has at each position the byte of some frame |
| Seqlock.MixIsDelivered | drivers/windows/webcam/source.cpp:177-191 | And every such mix of two frames or more is delivered by some interleaving |
| Seqlock.DeliversWholeIff | drivers/windows/webcam/source.cpp:177-191 | Every run delivers only whole frames if and only if every byte-wise mix of the frames is one of them |
| Seqlock.TwoFramesMixClosed | drivers/windows/webcam/source.cpp:177-191 | For two frames that is: they differ in at most one place |
| Seqlock.TornFromOdd | drivers/windows/webcam/camctl.cpp:358-360 | From an odd sequence any two frames that differ in two places let a torn copy pass |
| Seqlock.TornWhenStalled | drivers/windows/webcam/source.cpp:184-191 | From an even one a feeder that stalls inside its copy makes the fourth copy a torn sample, handed on unchecked |
| Seqlock.BlocksAreTheStream | drivers/windows/webcam/camctl.cpp:339-356 | The whole frames of the input, in order, lack only a tail shorter than a frame |
| Seqlock.FillFrame | drivers/windows/webcam/camctl.cpp:344-356 | However short the reads, the frame holds the next input bytes, whole or up to the end of the input |
| Seqlock.SharedFrame.Publish | drivers/windows/webcam/camctl.cpp:358-360 | The section holds the frame and the sequence has advanced by two modulo 2^32 |
| Seqlock.SharedFrame.Feed | drivers/windows/webcam/camctl.cpp:327-362 | Exactly the whole frames of the input are published, in order, and the section ends with the last |
| BundleSwap.Disk.CarryEntry | internal/speech/install.go:385-396 | One entry is moved or kept; nothing is lost, and success means the live bundle has the name |
| BundleSwap.Disk.CarryListed | internal/speech/install.go:385-396 | The loop in any order: whatever fails no entry and no file is lost, and without faults the live models become the retired ones overridden by the live tree's own |
| BundleSwap.Disk.CarryModels | internal/speech/install.go:365-399 | Names only go from the retired tree to the live one whatever fails; success means the live bundle holds every retired name; without faults its models are exactly the retired ones overridden by its own |
| BundleSwap.Disk.RemoveOld | internal/speech/install.go:340-340 | Callable only when the live bundle holds every retired name; a removal cut short leaves part of the retired tree |
| BundleSwap.Disk.RecoverBundle | internal/speech/install.go:345-363 | No entry is lost whatever fails, and no file if the live entries cover the retired ones of their name; without faults that is if and only if, the retired tree is gone, restored verbatim when nothing was published, and the live models are the retired ones overridden by the live ones |
| BundleSwap.MergeKeepsIff | internal/speech/install.go:365-399 | Carrying whole entries and dropping the rest loses no file if and only if the live entries cover the retired ones |
| BundleSwap.Disk.SwapBundle | internal/speech/install.go:320-343 | No models entry is lost wherever it fails or dies; success means the live bundle is the staged runtime with every name of before and of the stage; without faults it succeeds exactly when nothing blocks the retire rename, with the previous models overridden by the staged ones, and keeps every file if and only if the stage's own entries cover those on disk |
| BundleSwap.Disk.PublishFile | internal/speech/install.go:430-437 | A file is in its entry afterwards and every other is as it was, or nothing is lost; without faults it lands exactly when no file stands where a directory is needed or the other way round |
| BundleSwap.Disk.PublishPack | internal/speech/install.go:414-440 | A pack publication stopped anywhere loses no entry and no file, leaves the runtime files and the retired tree as they were and no file inside a file; success means that the live files are exactly the last one brought to each place and those of before at all other places; without faults it succeeds when there is room |
| BundleSwap.RoomIsEnough | internal/speech/install.go:424-437 | There is room when no file brought is nested with another one or with one of the live entry |
| BundleSwap.PublishedMeans | internal/speech/install.go:424-437 | Files landing one by one leave at each place the last one brought there |
| BundleSwap.Disk.PackThenHeal | internal/speech/install.go:345-440 | A pack installed beside a retired tree and then a recovery keep every file if and only if the live entries, the new ones included, cover the retired ones |
| BundleSwap.LostVoice | internal/speech/install.go:385-440 | From a retired tree that still holds one of two voices of an entry, installing the other and a recovery without any fault lose the first |
| BundleSwap.VoiceIsNotCovered | internal/speech/install.go:385-440 | On those trees the condition of the theorem fails, and only once the second voice is in |
| BundleSwap.Disk.Lifetime | internal/speech/install.go:320-399 | Over any number of locked operations, each recovering first and each allowed to fail or die at any step, every models name the first found is still there and every file has a content it had or was given; and no file is lost if each runtime's own entries cover what it finds and each pack shares no entry with the retired tree it finds, or nothing fails |
| BundleSwap.KeptMeansNames | internal/speech/install.go:320-399 | What every operation keeps is the set of names that are live or retired, and the origin of every file |
| BundleSwap.CarryKept | internal/speech/install.go:393-395 | Renaming one entry over, even onto one that it replaces, keeps every name and file and invents no content |
| DriverInstall.Installer.Backup | internal/devices/devices.go:174-193 | On success, exactly when its steps succeed, the driver's path is free and the previous tree is in hand; on error nothing has moved |
| DriverInstall.Installer.Restore | internal/devices/devices.go:195-209 | It succeeds exactly when the path could be cleared and the previous tree, if any, moved back, which is then exactly what is there; otherwise the path is free, half removed or as it was |
| DriverInstall.Installer.InstallPayload | internal/devices/devices.go:94-144 | Skipped and Installed exactly when the steps say so; Installed means the whole payload and its marker; on failure the previous driver is at its path or kept in its backup; with clean cleanup everything but the marker is as before; and the marker still names the whole payload at the path if and only if the failure is not one that spoils it |
| DriverInstall.Installer.InstallAgain | internal/devices/devices.go:94-151 | A later install is skipped over something other than its payload if and only if the earlier one spoiled the marker in its name |
| DriverInstall.LateMarker | internal/devices/devices.go:125-144 | From an installed and recorded driver, a marker write that reports an error late, rolled back, leaves the old driver under the new marker, and the next install is skipped |
| DriverInstall.HalfRemoved | internal/devices/devices.go:195-200 | From the same site, with the rollback's removal cut short, what is left passes for the whole payload and the next install is skipped |
| DriverInstall.LateMarkerSpoils | internal/devices/devices.go:125-144 | At that site both plans are among the failures that spoil the marker, in the name of the new payload |
| DriverInstall.Installer.InstallAll | internal/devices/devices.go:94-144 | Over any installs, failing anywhere, a whole driver is never lost |
| DriverInstall.StillWhole | internal/devices/devices.go:94-144 | What one install guarantees is enough to keep a whole driver somewhere |
| Wav.PrefixIsIncomplete | internal/speechengine/wav.go:93-124 | Every strict prefix of an accepted file is incomplete, never audio and never another error |
| Wav.ScanChunks | internal/speechengine/wav.go:134-148 | The chunk loop ends and gives what the recursive scan gives, every chunk taking at least its header |
| Wav.ReadChunk | internal/speechengine/wav.go:188-206 | The next chunk starts at least eight bytes on and inside the file |
| Wav.ScanSerialized | internal/speechengine/wav.go:134-206 | Scanning laid-out chunks is collecting them in file order |
| Wav.CollectMeans | internal/speechengine/wav.go:150-186 | Collecting gives both parts exactly when there is one good format chunk and one data chunk that is not empty |
| Wav.FormatMeans | internal/speechengine/wav.go:208-228 | A format chunk is accepted with a rate exactly when its bytes say PCM, mono, the rate, twice that as byte rate, two bytes a block and 16 bits, and the rate is between 1 and 384000 |
| Wav.AcceptedIffLaidOut | internal/speechengine/wav.go:93-228 | A file is accepted as some audio if and only if it is a RIFF envelope of the right size around chunks that hold that audio |
| Wav.EncodeWavInto | internal/speechengine/wav.go:381-406 | The buffer is the header and the packed samples |
| Wav.RoundTripIffEncodable | internal/speechengine/wav.go:381-406 | Decoding the encoding gives the audio back if and only if there is audio, it fits the 32-bit sizes and the rate is between 1 and 384000 |
| Resampler.GcdIsGreatest | internal/speechengine/wav.go:340-346 | The Euclidean result divides both numbers and every common divisor divides it |
| Resampler.Gcd | internal/speechengine/wav.go:340-346 | The loop computes it |
| Resampler.NewResampleKernel | internal/speechengine/wav.go:277-296 | One full row of weights per phase of the ratio in lowest terms |
| Resampler.BaseInside | internal/speechengine/wav.go:250-267 | Every output sample starts inside the input |
| Resampler.ReducedPosition | internal/speechengine/wav.go:250-267 | Reducing the ratio moves no position |
| Resampler.AccumulatedIsExact | internal/speechengine/wav.go:254-264 | The accumulated base and phase are the exact instant i*from/to |
| Resampler.At | internal/speechengine/wav.go:302-311 | The row slice and every clamped tap are in bounds, and the sum accumulates in order, for each of the 63 taps, its weight at that phase and the sample 31 before base onwards, edge samples held |
| Resampler.TapSumIsWindow | internal/speechengine/wav.go:302-311 | The running sum is that accumulation |
| Resampler.ImpulseReads | internal/speechengine/wav.go:302-311 | A row that is one at a single tap hands on the sample of that tap, at the centre the input at base |
| Resampler.ResamplePCM | internal/speechengine/wav.go:246-267 | The output has floor(len*to/from) samples, each the filter at its exact instant inside the input, however long the take |
| StrictJson.WalkValue | internal/strictjson/strictjson.go:41-78 | Walking one value leaves the stack as one scalar would, or stops at a repeated key |
| StrictJson.FreshKeysIffDistinct | internal/strictjson/strictjson.go:57-78 | The running key set admits the members exactly when their keys are distinct and new |
| StrictJson.WalkMembers | internal/strictjson/strictjson.go:57-78 | Inside an object, members whose keys are distinct and new and whose values repeat none leave the frame with those keys added; with any others the walk stops at a duplicate |
| StrictJson.AcceptsIffUnique | internal/strictjson/strictjson.go:80-107 | A stream of documents is accepted if and only if no object at any depth repeats a key, and is refused for no other reason |
| StrictJson.TruncationIsHarmless | internal/strictjson/strictjson.go:82-107 | On a stream cut anywhere the walker never pops an empty stack or meets a key that is no string |
| StrictJson.RejectDuplicateKeys | internal/strictjson/strictjson.go:82-107 | The loop over the in-place stack gives the specified verdict |
| ProcessTree.Walker.TerminateBranch | internal/procio/tree_windows.go:203-216 | For any snapshot, cyclic or not, it ends, attempts only descendants and the process itself, and collects exactly the failures in order |
| ProcessTree.TerminateDescendants | internal/procio/tree_windows.go:189-201 | Each descendant of the root is attempted exactly once and the root never, whatever individual terminations report |
| ProcessTree.FailingMeans | internal/procio/tree_windows.go:203-216 | The failures collected are the attempts that were refused, each as often as it was made |
| ProcessTree.DescendantsBeforeAncestors | internal/procio/tree_windows.go:203-216 | Without cycles below the root a process is attempted only after all its descendants |
| ProcessTree.WalkReachesAll | internal/procio/tree_windows.go:189-216 | A finished walk has attempted exactly the reachable processes |
| Repetition.CountRepetitions | internal/speechengine/whisper.go:268-276 | The greedy count is a run of equal blocks that cannot be extended |
| Repetition.GreedyIsLongest | internal/speechengine/whisper.go:268-276 | No longer run of that width starts there |
| Repetition.WideIsClean | internal/speechengine/whisper.go:267-267 | The pattern-length bound skips no loop |
| Repetition.HasPathologicalTokenRepetition | internal/speechengine/whisper.go:256-284 | True if and only if some start, width in 1..64 and at least four repetitions of at least 16 words in all are equal blocks |

## Left out

- Weak-memory reordering: atomics, fences and locked sections are sequentially consistent steps.
- Floating point: Float32 addition, filter weights, rounding and the energy threshold are parameters; sample times and host ticks per frame are reals.
- MacRingThreads.RingIsTheTimeline: assumes that no IO is in flight while the ring is cleared, so a machine run starts on a cleared ring; calls more than 2^31 laps apart are outside it, as `MacRing.WindowIsTight` shows they must be.
- ClientLedger.Device.StartIO: the calls are serialized by the state mutex and are whole steps; the bad-object and null checks before it are not modelled.
- WindowsRing.SharedRing.CopyTo: the cursors are 64 bits wide, so it asks that fewer than 2^64 bytes are unread, and `WindowsRing.RunRing` that this holds all along; the copy into the client's own buffer is not modelled.
- PlayRing.Ring.Pop: the conversion of a sample to Float32 is left to the caller; cursors do not overflow their 64 bits.
- LinuxLoop.Loop.RunTicks: the applications write and read exactly a tick ahead and a tick behind.
- LinuxLoop.Loop.Tick: the timer, the locks and stream teardown around a tick are not modelled, only the frames and counters it moves.
- Seqlock.AcceptedIsWhole: one feeder and one reader; fewer than 2^32 increments happen during one copy; the frame size is a parameter.
- SttWorker.NeverStuck: the condition variable wakes its sleeper only when signalled; a signal with nobody asleep is lost, as in the source.
- SttWorker.WorkerKeepsItsPromise: decoding is a step that succeeds or fails; the input closed on failure is a shorter stream, which the theorem covers.
- Pool.PoolKeepsItsPromise: a job that panics ends the program and is not modelled; the saturation metrics are left out.
- LazySource.SourceIsOwned: Open and the source's Close end; their errors are kept as a set, not as joined text.
- EngineSlot.OneOperation: the catalog cache and the event subscribers of the engine are left out.
- BundleSwap.Disk.SwapBundle: only the models directory is proved safe, as the design promises; a pack installed after a restore rename that failed makes a bundle without runtime files, which the next runtime install replaces. Removing a pack, staging and the state file are left out.
- BundleSwap.Disk.PublishFile: directories below an entry are not kept when empty; rename onto an existing entry follows POSIX, and what other systems refuse is a step that fails.
- DriverInstall.Installer.InstallPayload: steps fail but the process does not die between them, because the installer has no recovery to prove; removing an installed driver is left out.
- StrictJson.RejectDuplicateKeys: tokens come from the JSON tokenizer; its own syntax errors end the walk and are not modelled. The walker shares frames by pointer, the model replaces the top of a sequence.
- ProcessTree.TerminateDescendants: a process is a number in a snapshot; whether its termination fails is decided beforehand.
- Repetition.HasPathologicalTokenRepetition: the words come already split and lower-cased.
- Wav.AcceptedIffLaidOut: reading the growing file from disk and polling for it are left out.
- Property tables, COM, PortCls, Media Foundation and ALSA registration, HTTP and process spawning, the mixer, the sessions and the command line: wiring around the parts modelled here.
