# iLSim: a verified model

iLSim runs iPhone OS guests on a host. This project models the parts of it whose
correctness rests on interleavings, on several data structures agreeing, or on
arithmetic, and proves what the rest of the emulator relies on. Each component
comes as a specification of values and functions with its theorems, and, where
the original changes state in place, as classes and loops proved to compute that
specification.

| files | component |
|---|---|
| `GuestSliceWorkerPool.dfy` | the batch protocol between the scheduler and its worker threads |
| `RuntimeReaper.dfy` | the background destroyer, and what boot hands to it |
| `AudioQueue.dfy`, `AudioPlayback.dfy`, `AudioSession.dfy`, `AudioSink.dfy` | the PCM queue: functions, the rendered stream, whole runs, the code in place |
| `MachPortSets.dfy`, `MachRuns.dfy`, `MachReceive.dfy`, `MachEffects.dfy`, `MachSharedState.dfy` | port sets, links and queues; runs; pending receives; the effect of every operation; the mutating methods |
| `GdbFraming.dfy`, `GdbServer.dfy` | packet framing, and the reading, sending and polling loops |
| `Breakpoints.dfy`, `BreakpointRuns.dfy` | the breakpoint overlay on guest memory, and runs with forks and execs |
| `HfsLayout.dfy`, `HfsBytes.dfy`, `HfsSizes.dfy`, `HfsMetadata.dfy`, `CivilDate.dfy` | the attribute buffer and its decoder, its bytes, the size functions, the writers, and the date arithmetic |
| `GuestClock.dfy` | virtual time and the vertical-sync budget |
| `DeadlineQueue.dfy`, `DnssdIpc.dfy`, `LiveControl.dfy`, `DisplayOrient.dfy` | smaller pieces that still need induction |
| `Division.dfy`, `Wrappers.dfy` | quotients by a variable, and the result shapes |

`dafny verify dfyconfig.toml` checks everything.

## How the model is built

Threads: every region of code that runs while the mutex is held is one atomic
step. A wait on a condition variable gives up the mutex and goes to sleep; a
sleeper wakes only when notified or spuriously, and then looks at its condition
again. Schedules are arbitrary sequences of enabled steps.

Machine integers are unbounded integers with wrap-around written out where it can
happen. Sample scaling is over reals, rounded half away from zero. Guest memory,
sockets, the slices' execution and the destruction of resources are parameters.

The functions that specify an operation are tied, in turn, to statements of its
effect that do not use them: the lemmas named `...Exactly` and `...Layout`, and the
modules `MachEffects` and `HfsBytes`, speak of single list elements, bytes and bits.

Where a property does not hold on all inputs, the code is kept as it is and the
boundary is proved:

- the overflow guard of `GuestTickClock` lets results wrap at its own limit
  (`GuestClock.ConvertIsExact`, `GuestClock.GuardAdmitsWrap`);
- an unchanged queue generation means "still empty" unless the number of advances
  is a positive multiple of 2^64 (`MachRuns.UnchangedGenerationExactly`);
- a breakpoint that overlaps another may record the other's trap instead of the
  program's bytes, and leave it behind: when it does, and when not, is told by the
  records alone (`Breakpoints.RecordsOwnBytesExactly`,
  `Breakpoints.RestoresAfterInsertExactly`, `Breakpoints.InsertKeepsOverlayExactly`;
  `Breakpoints.OverlapLeavesATrap` is an input that fails);
- polling for an interrupt removes the byte 3 from the drained part of a payload
  as well, and such a payload is not delivered (`GdbFraming.PolledFrameReadsExactly`);
- the control buffer's limit is checked before lines are cut off, so lines are
  safe up to 61440 characters and not beyond (`LiveControls.SafeLengthExactly`,
  `LiveControls.OneCharacterMoreIsLost`);
- a callback that ends inside a frame plays that frame's samples without the fade
  (`AudioPlayback.WholeFramesExactly`);
- `days_from_civil` forms its sum in `int` before it widens it
  (`CivilDate.OverflowFreeExactly`, `CivilDate.TheNextDayOverflows`); its only
  caller parses years of four characters, for which no valid date comes near the
  limit (`CivilDate.FourCharacterYearsFit`);
- a string of 2^32 - 4 bytes or more has a padded size that does not hold it
  (`HfsLayout.RoomExactly`).

## Model

| member | source | states |
|---|---|---|
| GuestSliceSchedule.EveryInterleavingIsSafe | app/main.cpp:350-403 | in every interleaving of one caller and any number of workers: outstanding work is unclaimed slices plus slices in workers' hands; outside `run` no worker holds a slice pointer, late wakers included, and every slice of every batch ran exactly once; no overlap is ever reported |
| GuestSliceSchedule.StepInv | app/main.cpp:350-403 | the state invariant behind it survives every atomic step, including spurious wake-ups and generation wrap |
| GuestSliceSchedule.NeverStuck | app/main.cpp:353-403 | with a worker, some owed step is always enabled while `run` or the destructor is under way: no lost wake-up |
| GuestSliceSchedule.StepMeasure | app/main.cpp:350-403 | every owed step lowers a measure; a spurious wake-up raises it by one |
| GuestSliceSchedule.EveryScheduleFinishes | app/main.cpp:340-369 | a batch takes a bounded number of owed steps, and can only run out of them by returning |
| GuestSliceSchedule.WithoutWorkersRunNeverReturns | app/main.cpp:350-369 | the condition is needed: with no workers an opened batch is never finished |
| GuestSlicePool.NextGeneration | app/main.cpp:361-362 | the generation moves and skips zero when it wraps |
| GuestSlicePool.GuestSliceWorkerPool.Open | app/main.cpp:353-363 | opening a batch, or refusing one while work is outstanding |
| GuestSlicePool.GuestSliceWorkerPool.Close | app/main.cpp:365-368 | waiting for the batch to complete and dropping the pointer |
| GuestSlicePool.GuestSliceWorkerPool.WorkerRound | app/main.cpp:388-396 | one waking of a worker: sleep, exit, or claim the next slice of the current batch |
| GuestSlicePool.GuestSliceWorkerPool.WorkerFinish | app/main.cpp:394-401 | reporting a slice, signalling the last one, and claiming the next |
| RuntimeReaperSchedule.EveryInterleavingConserves | app/main.cpp:248-304 | destroyed plus in hand plus pending is what was retired, in order, in every interleaving; `finish` returns only when everything is destroyed |
| RuntimeReaperSchedule.StepInv | app/main.cpp:248-304 | the invariant behind it survives every step |
| RuntimeReaperSchedule.NeverStuck | app/main.cpp:248-304 | a `finish` under way always has an enabled step |
| RuntimeReaperSchedule.FinishTerminates | app/main.cpp:248-264 | whatever else happens, `finish` takes a bounded number of owed steps and ends with everything destroyed |
| RuntimeRetirement.PoolsDieBeforeTheirRuntimes | app/main.cpp:2343-2399 | however boot retires and the reaper is scheduled, an execution pool is destroyed before the Runtime that owned it |
| RuntimeRetirement.EveryRuntimeOnce | app/main.cpp:2343-2399 | every Runtime created is live or retired exactly once, its pool at most once and, while it lives, exactly when it has lost it; after `finish` exactly that has been destroyed |
| RuntimeReaperRegions.RuntimeReaper.Retire | app/main.cpp:271-282 | queueing at the back, or the logic error once stopping |
| RuntimeReaperRegions.RuntimeReaper.WorkerTake | app/main.cpp:287-297 | taking the front, sleeping, or leaving |
| RuntimeReaperRegions.RuntimeReaper.WorkerReport | app/main.cpp:299-303 | clearing the active mark and taking the next |
| AudioPlayback.CuttingUpPlaybackChangesNothing | app/audio/sdl_audio_sink.cpp:84-163 | callbacks of whole frames play the same samples however playback is cut up: lead silence, the unread samples in order through gain and fade, then silence |
| AudioPlayback.CallbackRenders | app/audio/sdl_audio_sink.cpp:84-163 | a callback plays the next samples of that stream, leaves exactly the rest, and keeps the queue in good order |
| AudioPlayback.DrainRenders | app/audio/sdl_audio_sink.cpp:99-158 | the loop over the chunks renders the flattened queue through the envelope indexed by absolute frame |
| AudioPlayback.WholeFramesExactly | app/audio/sdl_audio_sink.cpp:84-163 | callbacks of m samples play the stream from every well-formed queue if and only if m is a whole number of frames |
| AudioQueue.ScaleAttenuates | app/audio/sdl_audio_sink.cpp:117-124 | scaling by a level of at most one never exceeds the sample, so the clamp changes nothing |
| AudioQueue.FullGainIsIdentity | app/audio/sdl_audio_sink.cpp:132-147 | the copy path at gain one is the scaled path |
| AudioQueue.EnvelopeShape | app/audio/sdl_audio_sink.cpp:108-114 | the envelope stays between zero and one, starts at one and ends at zero |
| AudioQueue.EnvelopeExactly | app/audio/sdl_audio_sink.cpp:108-114 | it falls by equal steps: times (total - 1) it is remaining - 1 |
| AudioQueue.LevelExactly | app/audio/sdl_audio_sink.cpp:104-147 | behind the fade a frame is played at the gain, within it at the gain times that fraction of the frames left |
| AudioQueue.ScaleIsNearest | app/audio/sdl_audio_sink.cpp:117-124 | a scaled sample is the integer nearest to the product, halves away from zero |
| AudioSession.EveryRun | app/audio/sdl_audio_sink.cpp:55-404 | over every run of play, stop, gain changes and callbacks: counters equal the list, chunks are non-empty and frame-aligned, fade and lead fit and exclude each other, every sample sent is played, queued or discarded exactly once, and everything the callbacks wrote is silence and exactly the played samples, in the order sent, each at a level between zero and one |
| AudioSession.EveryCallback | app/audio/sdl_audio_sink.cpp:84-163 | in every run a callback writes silence for the lead, then exactly the samples it moves to the played ones, each scaled by the gain and the envelope of its frame, then silence |
| AudioSession.FadeTouchesOnlyEarlierSamples | app/audio/sdl_audio_sink.cpp:363-404 | the fade covers exactly the samples sent before the stop that began it |
| AudioSession.SecondStopDropsWhatCameSince | app/audio/sdl_audio_sink.cpp:363-404 | a second fading stop drops exactly what was queued since the first and lets the fade go on |
| AudioSession.StopExactly | app/audio/sdl_audio_sink.cpp:363-404 | from every queue in good order: stopping at once leaves no chunk, count, lead or fade; a fading stop keeps exactly the front frames, those of the fade under way or the smaller of what is queued and 40 milliseconds, and its counters are that number |
| AudioSession.StoppingAtOnceIsSilent | app/audio/sdl_audio_sink.cpp:363-404 | in every run, stopping at once discards everything pending and the next callback writes silence |
| AudioSession.FirstFadingStopKeeps | app/audio/sdl_audio_sink.cpp:363-404 | in every run, a first fading stop keeps exactly the fade pending and discards the others |
| AudioSession.PlayExactly | app/audio/sdl_audio_sink.cpp:306-332 | in every run, what is played is queued last; three periods of lead come first exactly when no stream has played since the last stop, nothing is queued and no lead is left |
| AudioSession.NeedsLeadExactly | app/audio/sdl_audio_sink.cpp:309-378 | in every run, the next stream needs a lead exactly when every stream played has a stop behind it |
| AudioSession.GainExactly | app/audio/sdl_audio_sink.cpp:354-361 | in every run, the gain is the value last set, brought between zero and one; one if none was set |
| AudioSession.CallbackKeeps | app/audio/sdl_audio_sink.cpp:84-163 | a callback frees no chunk: those it is done with are appended to the retired ones; it keeps gain and mode |
| AudioSession.StepInv | app/audio/sdl_audio_sink.cpp:55-404 | the session invariant survives each of play, stop, gain change and callback |
| AudioSink.SdlAudioSink.Consume | app/audio/sdl_audio_sink.cpp:84-163 | the callback on the real output array computes the callback function of the queue |
| AudioSink.SdlAudioSink.Fill | app/audio/sdl_audio_sink.cpp:99-158 | its chunk loop, in place, computes the drained samples and leaves the drained queue |
| AudioSink.SdlAudioSink.WriteFade | app/audio/sdl_audio_sink.cpp:105-130 | the fading part, frame by frame, writes the enveloped samples and counts the fade down |
| AudioSink.SdlAudioSink.TrimPendingSamples | app/audio/sdl_audio_sink.cpp:63-82 | trimming keeps the first samples and retires every chunk behind them |
| AudioSink.SdlAudioSink.RetireAllChunks | app/audio/sdl_audio_sink.cpp:55-61 | all chunks are retired and the counters cleared |
| AudioSink.SdlAudioSink.Play | app/audio/sdl_audio_sink.cpp:306-332 | a converted buffer is appended, with lead silence for a stream that starts |
| AudioSink.SdlAudioSink.StopPlaying | app/audio/sdl_audio_sink.cpp:363-404 | stopping drops everything or begins or continues a fade |
| MachRuns.EveryRunIsInverse | include/ilemu/kernel_shared_state.hpp:862-956 | over every run of port-set and queue operations a port is in a set exactly once if it has exactly one link to it and not at all otherwise; no link list is empty |
| MachPortSets.InsertKeepsInverse | include/ilemu/kernel_shared_state.hpp:884-898 | insertion keeps members and links inverse |
| MachPortSets.ExtractKeepsInverse | include/ilemu/kernel_shared_state.hpp:900-921 | so does extraction |
| MachPortSets.RemoveFromAllKeepsInverse | include/ilemu/kernel_shared_state.hpp:923-937 | so does removal from all sets |
| MachPortSets.EraseSetKeepsInverse | include/ilemu/kernel_shared_state.hpp:939-956 | so does erasing a set |
| MachEffects.CreateExactly | include/ilemu/kernel_shared_state.hpp:880-882 | a new set is empty; an existing one is left alone, and so is everything else |
| MachEffects.InsertExactly | include/ilemu/kernel_shared_state.hpp:884-898 | granted exactly for a set without the member, which is then last in it and has one new last link with the next non-zero sequence; every other list is unchanged |
| MachEffects.ExtractExactly | include/ilemu/kernel_shared_state.hpp:900-921 | granted exactly for a member, which is then gone from the set together with its link; the others keep their order and every other list is unchanged |
| MachEffects.RemoveFromAllExactly | include/ilemu/kernel_shared_state.hpp:923-937 | the port is gone from every set and has no links; the other members, sets and links are unchanged |
| MachEffects.EraseSetExactly | include/ilemu/kernel_shared_state.hpp:939-956 | the set is gone, and from every link list exactly the link to it; the other sets and links are unchanged |
| MachEffects.RemovePortExactly | src/kernel/mach/support.cpp:391-412 | a dead port is in no set, has no links, is no set and has no queue; every other list only loses what mentions it |
| MachEffects.FirstInFirstOut | include/ilemu/kernel_shared_state.hpp:985-989 | in every run, from every state, the messages that leave a queue, and then those still in it, are those that were in it and those sent to it, in that order |
| MachRuns.EveryRunIsOrdered | include/ilemu/kernel_shared_state.hpp:864-898 | short of counter wrap each member's link sequences are non-zero and rise in insertion order |
| MachRuns.SequencesInClosedForm | include/ilemu/kernel_shared_state.hpp:871-878 | the n-th sequence is (n - 1) mod (2^64 - 1) + 1: never zero, repeating only after a full period |
| MachRuns.UnchangedGenerationExactly | include/ilemu/kernel_shared_state.hpp:111-114 | an unchanged generation proves that a source found empty is still empty, whatever happened in between, if and only if the number of advances is zero or no multiple of 2^64 |
| MachRuns.SequencesCollideExactly | include/ilemu/kernel_shared_state.hpp:871-878 | two insertions are given the same sequence if and only if a multiple of 2^64 - 1 allocations lies between them |
| MachReceive.PreferredIsFirst | src/kernel/mach/ipc.cpp:64-125 | the chosen receiver waits on the port, directly or through a link, and no waiter has a smaller port sequence, or the same and a smaller own sequence; there is one exactly when anyone waits |
| MachReceive.FindPreferred | src/kernel/mach/ipc.cpp:88-124 | the nested loops compute that receiver |
| MachReceive.Walk | src/kernel/mach/ipc.cpp:139-165 | the walk over a receive's queues finds its message, or reports whether any was visible |
| MachReceive.PollExactly | src/kernel/mach/ipc.cpp:48-210 | a poll is skipped exactly for the observed generation before the deadline; else it takes the front message of the first source, in order, that has one for this processor; without one it ends at its deadline, or goes on waiting and notes the generation exactly when all its sources are empty |
| MachReceive.BeginExactly | src/kernel/mach/message.cpp:85-94 | a receive that has to wait gets the next non-zero sequence and has observed nothing |
| MachReceive.EveryRunIsHonest | src/kernel/mach/ipc.cpp:48-62 | over every run short of a generation wrap a receive whose observed generation is current has nothing queued, so skipping it is sound |
| MachReceive.NoLostWakeUp | src/kernel/mach/ipc.cpp:48-183 | a message some receive looks at has a preferred receiver, whose poll is not skipped and finishes with a message |
| MachReceive.EveryQueuedMessageCanBeReceived | src/kernel/mach/ipc.cpp:48-183 | so in every state reached short of a generation wrap a queued message with a waiting receiver can be received |
| MachReceive.EveryPlayIsInverse | src/kernel/mach/ipc.cpp:48-183 | receiving, waiting and cancelling keep the topology inverse |
| MachSharedState.KernelSharedState.AllocateMachWaitQueueSequence | include/ilemu/kernel_shared_state.hpp:871-878 | the counter in place, zero skipped on wrap |
| MachSharedState.KernelSharedState.CreateMachPortSet | include/ilemu/kernel_shared_state.hpp:880-882 | a new set is empty; an existing one is left alone |
| MachSharedState.KernelSharedState.InsertMachPortSetMember | include/ilemu/kernel_shared_state.hpp:884-898 | the maps after an insertion, or unchanged and refused |
| MachSharedState.KernelSharedState.ExtractMachPortSetMember | include/ilemu/kernel_shared_state.hpp:900-921 | the maps after an extraction, or unchanged and refused |
| MachSharedState.KernelSharedState.RemoveMachPortSetMemberFromAll | include/ilemu/kernel_shared_state.hpp:923-937 | the maps after the loop over a member's links |
| MachSharedState.KernelSharedState.EraseMachPortSet | include/ilemu/kernel_shared_state.hpp:939-956 | the maps after the loop over a set's members |
| MachSharedState.KernelSharedState.EnqueueMachMessage | include/ilemu/kernel_shared_state.hpp:985-989 | the message is last in its queue and the generation advances |
| MachSharedState.KernelSharedState.RemovePortObject | src/kernel/mach/support.cpp:391-412 | removing a port takes it out of all sets, dissolves it as a set and discards its queue |
| GdbFraming.NextFrameIsRead | src/debug/gdb_rsp.cpp:543-612 | after any noise and any number of complete bad frames the next frame's payload is returned, the rest of the stream is left, and each frame is refused or acknowledged once |
| GdbFraming.ReadBackExactly | src/debug/gdb_rsp.cpp:543-612 | a payload is read back from its frame if and only if it is free of '#' |
| GdbFraming.FrameExactly | src/debug/gdb_rsp.cpp:599-612 | what is sent is '$', the payload, '#', and the sum of the payload bytes modulo 256 in two small hexadecimal digits |
| GdbFraming.CompleteFrameReadsExactly | src/debug/gdb_rsp.cpp:543-581 | a complete frame is accepted and answered '+' exactly when its digits spell that sum, in either case; else it is answered '-' and reading goes on behind it |
| GdbFraming.OutsideFrames | src/debug/gdb_rsp.cpp:543-553 | between frames the byte 3 reads as a packet, and every other byte is passed over |
| GdbFraming.IncompleteFrame | src/debug/gdb_rsp.cpp:554-570 | a frame cut off before its second digit is no packet |
| GdbFraming.PolledFrameReadsExactly | src/debug/gdb_rsp.cpp:543-661 | however much of the stream an interrupt poll has drained, the next frame is still read whole, and what follows it left, if and only if the drained part of its payload holds no interrupt byte |
| GdbFraming.KeptExactly | src/debug/gdb_rsp.cpp:638-661 | polling removes all interrupt bytes and nothing else |
| GdbFraming.KeptCounts | src/debug/gdb_rsp.cpp:638-661 | the bytes kept are the bytes that came without the byte 3 |
| GdbFraming.BytesRoundTrip | src/debug/gdb_rsp.cpp:101-125 | hexadecimal decoding inverts encoding |
| GdbFraming.EncodedDigits | src/debug/gdb_rsp.cpp:101-110 | each byte is sent as its two small digits, high half first |
| GdbFraming.DecodedSpelling | src/debug/gdb_rsp.cpp:112-125 | each byte decoded is what its pair of digits spells |
| GdbFraming.DecodesExactlyHex | src/debug/gdb_rsp.cpp:112-125 | decoding accepts exactly the even-length texts of hexadecimal digits of either case |
| GdbServer.GdbRemoteServer.ReadByte | src/debug/gdb_rsp.cpp:520-541 | buffered bytes are delivered first, in order |
| GdbServer.GdbRemoteServer.ReadPayload | src/debug/gdb_rsp.cpp:554-564 | the payload loop stops at the first '#' and has the sum of the bytes modulo 256 |
| GdbServer.GdbRemoteServer.ReadPacket | src/debug/gdb_rsp.cpp:543-581 | the reading loop consumes and answers exactly as the framing's reader on buffered and incoming bytes together |
| GdbServer.GdbRemoteServer.SendPacket | src/debug/gdb_rsp.cpp:599-612 | what is sent is the frame, byte for byte: '$', the payload, '#', and the byte sum modulo 256 in two small digits |
| GdbServer.GdbRemoteServer.PollInterrupt | src/debug/gdb_rsp.cpp:638-661 | the chunked drain reports an interrupt exactly when one arrived and keeps the other bytes in order |
| GdbServer.EncodeText | src/debug/gdb_rsp.cpp:101-110 | the encoding loop |
| GdbServer.DecodeText | src/debug/gdb_rsp.cpp:112-125 | the decoding loop |
| BreakpointRuns.EveryRunIsAnOverlay | app/main.cpp:485-553 | after any run of inserts, removes, writes, forks and execs without overlaps, memory is what it would be without a debugger, with the traps laid over it at exactly the recorded addresses |
| Breakpoints.InsertExactly | app/main.cpp:494-522 | when an insertion is granted; that a new one puts the two or four literal trap bytes in memory and what stood there in the record, and changes nothing else |
| Breakpoints.RemoveExactly | app/main.cpp:524-537 | when a removal is granted; that it puts the recorded bytes back and changes nothing else |
| Breakpoints.WriteExactly | app/main.cpp:485-492 | when a write is granted; that it changes exactly those bytes |
| Breakpoints.InsertKeepsOverlay | app/main.cpp:494-522 | a breakpoint clear of the others changes only what is shown, and its record holds the program's own bytes |
| Breakpoints.RemoveKeepsOverlay | app/main.cpp:524-537 | removing restores precisely the bytes under the trap |
| Breakpoints.InsertThenRemove | app/main.cpp:494-537 | inserting a new breakpoint and removing it is no change at all |
| Breakpoints.WriteKeepsOverlay | app/main.cpp:485-492 | a write clear of breakpoints changes the program's own memory alike |
| BreakpointRuns.RemoveAllRestores | app/main.cpp:555-567 | removing all breakpoints gives every process its own memory back |
| BreakpointRuns.ForkKeepsOverlay | app/main.cpp:539-547 | a prepared fork child sees only original bytes |
| BreakpointRuns.ExecKeepsOverlay | app/main.cpp:549-553 | an exec forgets the process's records and leaves the other overlays |
| Breakpoints.RestoringEverythingIsPristine | app/main.cpp:539-567 | restoring every record in any order yields the program's own memory |
| Breakpoints.InsertKeepsOverlayExactly | app/main.cpp:494-522 | an insertion granted at a new place keeps the overlay if and only if its range is clear of the other breakpoints |
| Breakpoints.RecordsOwnBytesExactly | app/main.cpp:494-522 | it records the program's own bytes if and only if every breakpoint it overlaps had recorded, at the overlapped addresses, the very bytes its trap shows |
| Breakpoints.RestoresAfterInsertExactly | app/main.cpp:494-567 | restoring all records in order then gives the program's own memory back if and only if that holds of each earlier-starting breakpoint at the addresses it shares with the new one |
| Breakpoints.OverlapLeavesATrap | app/main.cpp:494-567 | a witness for the failing side: a thumb breakpoint on half of an ARM one leaves half a trap behind |
| BreakpointRuns.BootGdbTarget.InsertSoftwareBreakpoint | app/main.cpp:494-522 | the method, with its refusals |
| BreakpointRuns.BootGdbTarget.RemoveSoftwareBreakpoint | app/main.cpp:524-537 | the method, with its refusals |
| BreakpointRuns.BootGdbTarget.PrepareForkChild | app/main.cpp:539-547 | the loop over the records turns a copy of the parent's overlaid memory into the program's own |
| BreakpointRuns.BootGdbTarget.RemoveAllBreakpoints | app/main.cpp:555-567 | the loop restores every record in its process and forgets them all |
| BreakpointRuns.BootGdbTarget.NotifyExec | app/main.cpp:549-553 | the loop leaves the other processes' records as they are and none of this one's; if memory was an overlay it is one again once the new image is loaded |
| CivilDate.FormulaCountsDays | src/filesystem/hfs_metadata.cpp:106-118 | the closed formula counts the days since 1 January 1970 year by year, month by month, for every valid proleptic Gregorian date |
| CivilDate.NextIsOneMore | src/filesystem/hfs_metadata.cpp:106-118 | the successor of any valid date maps to exactly one more |
| CivilDate.OrderIsKept | src/filesystem/hfs_metadata.cpp:106-118 | strictly increasing and injective |
| CivilDate.EveryDayHasADate | src/filesystem/hfs_metadata.cpp:106-118 | and onto: every whole number is some date's |
| CivilDate.OverflowFreeExactly | src/filesystem/hfs_metadata.cpp:106-118 | on valid dates no `int` step overflows if and only if the date lies between 23 June -5877641 and 9 September 5879610 |
| CivilDate.TheNextDayOverflows | src/filesystem/hfs_metadata.cpp:106-118 | the first date that fails, 10 September 5879610 |
| CivilDate.FourCharacterYearsFit | src/filesystem/hfs_metadata.cpp:120-144 | every valid date whose year has four characters, as the only caller parses it, fits |
| CivilDate.NoUnsignedWrap | src/filesystem/hfs_metadata.cpp:106-118 | on valid dates no unsigned step wraps |
| HfsLayout.PackedFieldsDecode | src/filesystem/hfs_metadata.cpp:383-604 | a decoder walking the bitmaps from the lowest bit and following the string references recovers every requested value and nothing else, exactly when the total fits the length word |
| HfsBytes.RecordInBuffer | src/filesystem/hfs_metadata.cpp:383-480 | for every requested attribute of a file or directory that is a number or a time, its words stand at its position, least byte first: seconds before nanoseconds, low word before high word, with the literal constants |
| HfsBytes.VolumeInBuffer | src/filesystem/hfs_metadata.cpp:482-604 | the same of a volume and its root |
| HfsBytes.FieldsFollow | src/filesystem/hfs_metadata.cpp:395-473 | positions begin behind the length and follow each other in attribute order without gaps |
| HfsBytes.TextInBuffer | src/filesystem/hfs_metadata.cpp:521-526 | a requested string stands with its terminator as far behind its field as the field's first word says, and the second word is its length with the terminator |
| HfsBytes.FinderInfoInBuffer | src/filesystem/hfs_metadata.cpp:432-436 | the 32 bytes of Finder information stand at their position |
| HfsBytes.LengthInBuffer | src/filesystem/hfs_metadata.cpp:393-394 | the first four bytes are the length of the buffer, least byte first |
| HfsLayout.RoomExactly | src/filesystem/hfs_metadata.cpp:244-246 | the padded size leaves room for a string and its terminator if and only if the string is shorter than 2^32 - 4 bytes |
| HfsLayout.LengthWord | src/filesystem/hfs_metadata.cpp:393-394 | the first word is the total length modulo 2^32 |
| HfsLayout.FieldInWire | src/filesystem/hfs_metadata.cpp:395-473 | each field lies where the sizes of the fields below it say, inside the fixed part |
| HfsLayout.BodyInWire | src/filesystem/hfs_metadata.cpp:521-526 | each string's bytes lie where its reference points |
| HfsLayout.BodiesTile | src/filesystem/hfs_metadata.cpp:488-526 | string bodies follow the fixed part in order, without overlap, up to the end of the buffer |
| HfsLayout.ValidExactly | src/filesystem/hfs_metadata.cpp:368-381 | a request is valid exactly when every set bit is an attribute the packers write, and volume attributes come alone and flagged |
| HfsLayout.MasksMatchShapes | include/ilemu/hfs_metadata.hpp:19-79 | the supported masks name exactly the attributes with a field |
| HfsSizes.CommonFixedSize | src/filesystem/hfs_metadata.cpp:172-196 | the separately computed size is that of the common fields, for every bitmap |
| HfsSizes.DirectorySizeAgrees | src/filesystem/hfs_metadata.cpp:198-202 | so is the population count times four for directories |
| HfsSizes.FileFixedSize | src/filesystem/hfs_metadata.cpp:204-218 | so is the file size, summed in another order than written |
| HfsSizes.VolumeFixedSize | src/filesystem/hfs_metadata.cpp:220-242 | so is the volume size |
| HfsMetadata.PackAttributes | src/filesystem/hfs_metadata.cpp:383-480 | the writer fills a buffer of the precomputed size with exactly the layout, every write in bounds, the cursor ending at the fixed size |
| HfsMetadata.PackVolumeAttributes | src/filesystem/hfs_metadata.cpp:482-604 | so does the volume writer, strings included |
| HfsMetadata.Write | src/filesystem/hfs_metadata.cpp:158-170 | little-endian words in place |
| HfsMetadata.AttributeWriter.Field | src/filesystem/hfs_metadata.cpp:396-441 | one requested number or byte field, or nothing |
| HfsMetadata.AttributeWriter.String | src/filesystem/hfs_metadata.cpp:521-526 | one requested string: reference and body |
| HfsMetadata.PackName | src/filesystem/hfs_metadata.cpp:475-478 | the record's name behind the fixed part |
| GuestClock.NoDrift | app/main.cpp:126-141 | over any run of calls whose results fit, the units returned add up to floor(total ticks x 10^9 / rate), with the remainder of that division carried |
| GuestClock.ConvertIsExact | app/main.cpp:126-141 | a result is exact if and only if the seconds are below the guard's limit or at it with a fraction that fits |
| GuestClock.GuardAdmitsWrap | app/main.cpp:130-140 | the guard alone is not enough: an input it admits whose result wraps |
| GuestClock.DurationIsFloor | app/main.cpp:148-171 | the exact floor, failing exactly when a rate is zero, or the floor or the fraction's product does not fit 64 bits |
| GuestClock.DurationOfUnits | app/main.cpp:2441-2445 | with a billion units to the second only the floor itself can overflow |
| GuestClock.CappedSliceStopsAtDeadline | app/main.cpp:2436-2482 | a slice capped at the vertical-sync budget advances time by at most the distance to the deadline, or by one tick when that is the minimum |
| GuestClock.BudgetIsLargest | app/main.cpp:2436-2446 | there is a budget exactly when the deadline is ahead; it is the largest number of ticks that does not pass it, but at least one |
| GuestClock.OneMoreTickReachesDeadline | app/main.cpp:2436-2446 | one more tick than the budget reaches the deadline on the clock, whatever remainder was carried |
| GuestClock.CappedExactly | app/main.cpp:2477-2482 | a slice is cut down to the budget and only to it |
| GuestClock.GuestTickClock.AbsoluteTimeUnits | app/main.cpp:126-141 | the method and its carried remainder |
| GuestClock.GuestTickClock.Create | app/main.cpp:119-124 | a zero rate is refused |
| DeadlineQueues.RefinesPlainMap | include/ilemu/deadline_queue.hpp:20-43 | every run keeps the two indexes in agreement and refines a plain key-to-deadline map |
| DeadlineQueues.UpsertAgrees | include/ilemu/deadline_queue.hpp:20-30 | upserting keeps every key in exactly the bucket of its deadline and no bucket empty |
| DeadlineQueues.EraseAgrees | include/ilemu/deadline_queue.hpp:32-38 | so does erasing |
| DeadlineQueues.FirstBucketIsNext | include/ilemu/deadline_queue.hpp:49-52 | the first bucket is the minimum over all keys |
| DeadlineQueues.DeadlineQueue.NextDeadline | include/ilemu/deadline_queue.hpp:49-52 | the minimum, absent exactly when there are no keys |
| DeadlineQueues.DeadlineQueue.Put | include/ilemu/deadline_queue.hpp:20-30 | the maps after an upsert |
| DeadlineQueues.DeadlineQueue.Drop | include/ilemu/deadline_queue.hpp:32-38 | the maps after an erase, and whether there was anything to erase |
| DnssdIpc.RequestCodecIsABijection | include/ilemu/dnssd_ipc_abi.hpp:247-283 | a wire decodes to a request if and only if the request encodes to the wire |
| DnssdIpc.ReplyCodecIsABijection | include/ilemu/dnssd_ipc_abi.hpp:285-340 | the same for replies |
| DnssdIpc.RequestWireRoundTrip | include/ilemu/dnssd_ipc_abi.hpp:265-283 | nothing truncated, trailing or unterminated decodes |
| DnssdIpc.ReplyRoundTrip | include/ilemu/dnssd_ipc_abi.hpp:285-340 | every reply that encodes decodes to itself |
| DnssdIpc.RequestLayout | include/ilemu/dnssd_ipc_abi.hpp:247-263 | which requests encode, and the offset and byte order of every part |
| DnssdIpc.ReplyLayout | include/ilemu/dnssd_ipc_abi.hpp:285-306 | the same of replies |
| DnssdIpc.FindTerminator | include/ilemu/dnssd_ipc_abi.hpp:230-238 | the first zero from a position on |
| DnssdIpc.EncodeRequestWire | include/ilemu/dnssd_ipc_abi.hpp:247-263 | the appending encoder |
| DnssdIpc.EncodeReplyWire | include/ilemu/dnssd_ipc_abi.hpp:285-306 | the appending encoder |
| LiveControls.ChunkingDoesNotMatter | app/control/live_control.cpp:156-186 | while the limit is kept, any sequence of reads yields the lines of the whole input in order and leaves the text after the last newline |
| LiveControls.SafeLengthExactly | app/control/live_control.cpp:156-186 | lines of at most so many characters all arrive in order, under every way of cutting the input into reads, if and only if the length is at most 61440 |
| LiveControls.OneCharacterMoreIsLost | app/control/live_control.cpp:173-177 | a run from the empty buffer that loses everything: 61441 reads of one character, then a full read that begins with the newline |
| LiveControls.LinesJoin | app/control/live_control.cpp:179-185 | cutting the residual with what comes next is cutting the whole |
| LiveControls.LinesExactly | app/control/live_control.cpp:179-185 | the lines and the residual hold no newline and, with a newline behind each line, make up the text |
| LiveControls.PollExactly | app/control/live_control.cpp:139-187 | what each event does: which close the channel, when the buffer is dropped, and which errors are reported |
| LiveControls.ParseAllExactly | app/control/live_control.cpp:179-185 | the commands are those of each line, in order |
| LiveControls.LiveControl.PollOnce | app/control/live_control.cpp:139-187 | one poll, with its failures and endings |
| LiveControls.LiveControl.CutLines | app/control/live_control.cpp:179-185 | the loop that cuts lines off the buffer |
| DisplayOrient.OrientationsCompose | src/foundation/application_display_profile.cpp:175-216 | orienting twice is orienting by the product in the Klein four-group, in the extents the first leaves |
| DisplayOrient.ShownExactly | src/foundation/application_display_profile.cpp:189-213 | which source pixel every row and column of the output shows, for each orientation |
| DisplayOrient.TwiceIsIdentity | src/foundation/application_display_profile.cpp:175-216 | each orientation undoes itself |
| DisplayOrient.KleinFourGroup | src/foundation/application_display_profile.cpp:193-210 | the product is commutative and associative, each element its own inverse; left then right is upside down |
| DisplayOrient.EveryPixelOnce | src/foundation/application_display_profile.cpp:189-213 | a permutation: each source pixel is shown at exactly one place |
| DisplayOrient.OrientDisplayPixels | src/foundation/application_display_profile.cpp:175-216 | the nested loops fill the output array with it, or return nothing for a frame that does not fit |

## Left out

- Several callers of `run` at once, and several threads in `finish` at once: the boot loop is the only caller of both.
- Exceptions thrown while a mutex is being locked or a thread started.
- A slice's execution and its exception capture: one step that ends.
- SDL's conversion, device opening and pausing, format negotiation and device naming: a converted buffer is given.
- Rounding of single-precision products in the audio path: products are exact reals.
- Wrap-around of the audio sample counters in `size_t`: they are unbounded.
- Resolution of a receive name to an object at a later poll, and clock readings: a pending receive has its object, and whether its deadline has passed is given.
- Copying received rights and messages into the guest: a delivered message leaves its queue, or stays when it is too large.
- Rights, notifications and the other tables cleared when a port dies.
- Failures of `send` and interrupted system calls in the GDB server: what is sent arrives, and a disconnect is the end of the incoming bytes.
- GDB command dispatch, register transfer, thread identifiers and the target description.
- Threads that appear and processes that end while breakpoints are set, and reuse of a process identifier: the model's processes and threads are fixed except for forks and execs.
- File-backed pages faulted in on a debugger read, and the translation caches cleared after a write.
- HfsLayout.PackedFieldsDecode: requires each string that is asked for to be shorter than 2^32 - 4 bytes; for exactly the others the padded size, which loses its upper bits, leaves no room for the string (`HfsLayout.RoomExactly`), and there is no buffer to speak of.
- HfsMetadata.PackAttributes: requires the same of the name, if it is asked for.
- HfsMetadata.PackVolumeAttributes: requires the same of those of the volume's three strings that are asked for.
- Reading metadata from the host file system, extended attributes, catalog identifiers and overrides; parsing of HFS date strings.
- The message header and the other operations of the DNS service discovery protocol.
- `parse_line`: an arbitrary function from a line to commands.
- Scheduling policy, the rest of the boot loop, device selection, logging and performance counters.
