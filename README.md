# pi-cam: V4L2 frame capture and UART clock setting, modelled in Dafny

This is a model of the core of pi-cam, in two parts.

The first part is the V4L2 capture program (`capture.c`). It does the following:
- opens the video device;
- asks for a 640x480 MJPEG format and a frame interval of 1/30 s;
- requests eight memory-mapped buffers and maps each one into the static buffer table;
- queues each mapped buffer;
- switches streaming on;
- runs 100 frame slots, each of which is a bounded wait, a dequeue, an optional write of the payload to standard output, and a requeue;
- switches streaming off and closes the device.

An exit handler (`_atexit_`) unmaps every recorded buffer and closes the descriptor.

The second part is the START/END message accumulator shared by the two UART clock-setting programs (`comm.c` and `filename.c`). Each read is appended to a 512-byte buffer, dropping the oldest bytes when it would fill. The text between the first `START` and the first `END` is extracted, at most 255 bytes of it. Everything up to that `END` is removed unless the message sets the system clock, in which case the program exits. `comm.c` requires the message to be JSON whose `"time"` string is the date. `filename.c` takes the message itself as the date.

How the model is built:
- The device, the driver, the kernel and the C library are oracles. Each one is a function from a call's ordinal (the buffer index while mapping, the frame slot while capturing) or its argument to the reply that call gets.
- The effects the program has on the outside world are ghost logs on the program object:
  - the frames written to standard output;
  - the munmap calls;
  - the close calls;
  - the table as it stood when streaming started.
- The capture program's globals are the fields of the class `CaptureApp.Program`, and its routines are methods on it.
- Each table entry carries an `owner` tag that `struct buffer` does not have. It follows the V4L2 handoff: a successful VIDIOC_QBUF gives the buffer to the driver, and VIDIOC_DQBUF gives it to the program. The C code never reads the tag.
- Each method is proved against a function on values:
  - `MapSlot` and `FirstFailure` for the mapping loop;
  - `CaptureRun` for the capture loop;
  - `Teardown` and `UnmapCalls` for the exit handler.
- The properties are proved about those functions as lemmas.
- The accumulator is the class `Framing.Accumulator`, over a 512-byte `array`. Its loop step is proved against `StepSpec`, which is built from `Appended` and `Extract`.

Files:
- `options.dfy`: `Option`.
- `bytes.dfy`: the `byte` type shared by the accumulator and the read loops.
- `v4l2.dfy`: the request records, the setup helpers and the fourcc code.
- `capture_model.dfy`: the buffer table, the driver replies and the specification functions with their lemmas.
- `capture_app.dfy`: the program object and `main`.
- `framing.dfy`: the accumulator.
- `clock.dfy`: `parse_datetime` and `set_system_time`.
- `comm.dfy`: the JSON read loop.
- `filename.dfy`: the plain-date read loop.

Quirks of the code that the model keeps:
- A frame rate the driver refuses ends `main` with status 1. It is not ignored.
- A count of zero granted by VIDIOC_REQBUFS is not rejected. Nothing is mapped, and the capture loop then relies on the driver never dequeuing.
- A mapping that fails part-way leaves the buffers before the failure mapped and queued. When the failing buffer mapped and only its VIDIOC_QBUF failed, it too stays mapped, owned by the program. `nb_buffers` stays 0, so the exit handler unmaps none of them.
- On success the descriptor is closed twice: once at the end of `main` and again by the exit handler, which does not reset `fd`. After a failed open the handler calls `close(-1)`.
- A capture run that fails ends `main` with streaming still on. A buffer whose requeue failed stays with the program when the exit handler unmaps it.

## Model

| member | source | states |
|---|---|---|
| V4l2.SetupFormat | capture.c:55-69 | status -1 exactly for a NULL struct or a zero width or height, leaving the struct as it was; otherwise status 0 and an MJPEG capture format of exactly that size with no field order, all other fields unchanged |
| V4l2.SetupFrameRate | capture.c:71-82 | returns 0 exactly when the driver accepts a capture time-per-frame of numerator/denominator with all other fields zero, otherwise -1 |
| V4l2.SetupBufferRequest | capture.c:122-134 | status -1 exactly for a NULL struct or a zero count, leaving it as it was; otherwise exactly that many memory-mapped capture buffers, capabilities unchanged |
| V4l2.FourccChars | capture.c:98-102 | the four printed characters re-pack, through the `v4l2_fourcc` packing, into the code they were taken from |
| V4l2.FourccCharsOfFourcc | capture.c:98-102 | decoding a packed code gives back its four characters in order |
| V4l2.MjpegPrintsAsMJPG | capture.c:98-102 | the MJPEG code the program requests prints as "MJPG" |
| CaptureModel.FirstFailureFrom | capture.c:151-167 | the first index at or after `from` whose query, mmap or queue fails; every index before it succeeds |
| CaptureModel.FirstFailure | capture.c:151-167 | the first buffer index whose query, mmap or queue fails, or the count; every earlier buffer maps and queues |
| CaptureModel.FirstFailureIs | capture.c:151-167 | an index that fails after only successes, or the count after a run of successes, is the first failure |
| CaptureModel.MapSlot | capture.c:159-166 | a queried buffer is recorded with its queried length; a mapped one is recorded at the address mmap returned, and is driver-owned exactly when VIDIOC_QBUF succeeded |
| CaptureModel.MapSlotLeaked | capture.c:159-166 | a buffer that is queried and mapped but fails VIDIOC_QBUF holds the mmap address and the queried length, is mapped and program-owned, and is the failure that ends the mapping loop |
| CaptureModel.MapSlotQueued | capture.c:160-166 | a buffer that is queried, mapped and queued holds the mmap address and the queried length, is driver-owned and will be unmapped by the teardown |
| CaptureModel.Advance | capture.c:190-209 | each slot of a run that has not failed performs exactly one wait |
| CaptureModel.CaptureRun | capture.c:182-210 | a run over k slots waits at most k times |
| CaptureModel.CaptureAccounting | capture.c:182-210 | a run of k slots waits at most k times, and exactly k times when no failure occurs; frames plus timeouts plus a lost failing slot equal the waits |
| CaptureModel.CaptureStops | capture.c:191-209 | after a failed wait, dequeue or requeue no later slot changes the run |
| CaptureModel.CaptureAllTimeouts | capture.c:190-196 | a device that never becomes ready yields k timeouts, no frame and no failure |
| CaptureModel.CaptureAllDelivered | capture.c:198-209 | a device that delivers and requeues in every slot yields exactly one frame per slot, in slot order, with no timeout and no failure |
| CaptureModel.CaptureTimeout | capture.c:192-196 | a timed-out slot adds no frame and does not end the run |
| CaptureModel.CaptureDelivered | capture.c:198-209 | a slot that dequeues and requeues adds exactly its frame and does not end the run |
| CaptureModel.CaptureFails | capture.c:190-209 | a failed wait, dequeue or requeue ends the run with a failure, keeping the frame dequeued in that slot, if any |
| CaptureModel.CaptureFramesWithin | capture.c:203-209 | when the driver dequeues only granted buffers, every written frame indexes a granted buffer and fits in its length, and a failed requeue names a granted buffer |
| CaptureModel.AfterRun | capture.c:198-209 | the table after a run keeps its size |
| CaptureModel.AfterRunOwners | capture.c:198-209 | when the first entries are driver-owned and a failed requeue names one of them, after the run each of them is driver-owned again except the one whose requeue failed, which stays with the program; the other entries are untouched |
| CaptureModel.Teardown | capture.c:225-231 | after the teardown no recorded entry is mapped and every entry that was mapped is released; entries beyond the count are untouched |
| CaptureModel.UnmapCalls | capture.c:225-231 | the teardown makes at most one munmap call per recorded entry |
| CaptureModel.TeardownIdempotent | capture.c:225-231 | running the teardown again changes nothing and makes no munmap call |
| CaptureModel.NothingToUnmap | capture.c:225-231 | a table with nothing mapped below the count causes no munmap call |
| CaptureModel.UnmapCallsAllMapped | capture.c:225-231 | when every recorded entry is mapped, each is unmapped once, in table order, with its own start and length |
| CaptureModel.UnmapCallsCount | capture.c:225-231 | the munmap calls are as many as the mapped recorded entries, and each names one of them |
| CaptureApp.MainFormat | capture.c:258-260 | the format main sends is an MJPEG capture at 640x480 |
| CaptureApp.MainRequest | capture.c:273-275 | the request main sends is for NB_BUFFERS memory-mapped capture buffers |
| CaptureApp.MappedTable | capture.c:151-167 | the table the mapping loop builds from zeroed entries has one entry per granted buffer |
| CaptureApp.MappedAfterRun | capture.c:151-209 | once every granted buffer is mapped and queued, each is driver-owned; after stream-on and the capture run each recorded entry is mapped at the address mmap returned, with the queried length, and driver-owned unless the run ended with a failed requeue of that buffer |
| CaptureApp.TeardownOfMapped | capture.c:225-231 | when every recorded entry is mapped at its buffer's mmap address with the queried length, the teardown unmaps each exactly once, in order, with that address and length, and clears it; with nothing recorded it does nothing |
| CaptureApp.Program.constructor | capture.c:23-31 | the program starts with a zeroed table, `fd` 0, no recorded buffers and nothing logged |
| CaptureApp.Program.MapBuffers | capture.c:136-172 | returns 0 exactly for a non-NULL table and request, a count the table holds and no failing buffer; buffers up to and including the first failure are set as each reply dictates, the rest untouched; the count is recorded only on success |
| CaptureApp.Program.Capture | capture.c:174-218 | returns -1 exactly when the run of the slots' replies fails; the frames written are the run's frames, or none when verbose; every written payload names a recorded buffer and fits in its length; the table ends as `AfterRun` of the run, so on success every recorded buffer is driver-owned again |
| CaptureApp.Program.AtExit | capture.c:222-237 | the table becomes its teardown, the munmap calls are exactly the teardown's calls in order, and the descriptor is closed once unless it is 0 |
| CaptureApp.Program.ExitAfterMain | capture.c:222-237 | the exit handler on a table whose recorded entries are mapped at their buffers' mmap addresses with the queried lengths: exactly one munmap per recorded buffer, in order, with that address and length; each of those entries cleared; the entries past the recorded count untouched, and nothing touched when nothing is recorded; one close unless the descriptor is 0 |
| CaptureApp.Program.StreamFrames | capture.c:286-299 | exit 0 exactly when stream-on and every capture slot succeed, and then the device is closed once and streaming stopped; a failed capture leaves streaming on; frames are written only after streaming started on the current table; the table ends as `AfterRun` of the run, and untouched when stream-on fails |
| CaptureApp.Program.MapAndStream | capture.c:281-299 | exit 0 exactly when the granted count fits the table, every buffer maps and queues, and streaming and capture succeed; the recorded count is the granted count when every buffer mapped and 0 otherwise; streaming starts exactly when mapping succeeded and stream-on is accepted, and then with every recorded buffer mapped and driver-owned; afterwards every recorded entry holds its buffer's mapping, driver-owned unless a failed requeue kept it; a failed mapping leaves each earlier buffer mapped and queued exactly as `MapSlot` sets a zeroed entry (at the mmap address, with the queried length, driver-owned), the failing entry as the reply for it sets a zeroed entry (so still mapped when only its VIDIOC_QBUF failed), and every later entry untouched; otherwise every entry past the recorded count is untouched; streaming is left on exactly when every buffer mapped, stream-on succeeded and the exit status is 1; a count the table cannot hold leaves the table untouched |
| CaptureApp.Program.RunMain | capture.c:241-300 | `fd` is what open returned; exit 0 exactly when open, format, frame rate, request, mapping, stream-on and all 100 slots succeed, and the first failing step gives status 1; the recorded count is the granted count when every granted buffer mapped and 0 otherwise; streaming starts only with every recorded buffer mapped and driver-owned; every recorded entry then holds its buffer's mapping, driver-owned unless a failed requeue kept it; a failed mapping leaves each earlier buffer mapped and queued exactly as `MapSlot` sets a zeroed entry (at the mmap address, with the queried length, driver-owned), the failing entry as the reply for it sets a zeroed entry (so still mapped when only its VIDIOC_QBUF failed), and every later entry untouched; otherwise every entry past the recorded count is untouched; streaming is left on exactly when every buffer mapped, stream-on succeeded and the exit status is 1, so a failed capture leaves it on; a failure before mapping leaves the table untouched |
| CaptureApp.Program.Process | capture.c:241-300 | main, then the exit handler, with the verbosity flag left as the options set it: `fd` is what open returned; exit 0 exactly when every step of main succeeds; the frames written are the run's frames, or none when verbose or when streaming never started; streaming starts exactly when every granted buffer mapped and stream-on is accepted, and then with every recorded buffer mapped and driver-owned; the recorded count is the granted count when every granted buffer mapped and 0 otherwise; the munmap calls are exactly one per recorded buffer, in order, at the address mmap returned and with the queried length, and those entries are cleared; success closes the descriptor in main and again in the handler unless it is 0, and a failed open closes -1; a failed mapping unmaps nothing and leaves each earlier buffer mapped and queued exactly as `MapSlot` sets a zeroed entry (at the mmap address, with the queried length, driver-owned), the failing entry as the reply for it sets a zeroed entry (so still mapped when only its VIDIOC_QBUF failed), and every later entry untouched; otherwise every entry past the recorded count is untouched; streaming is left on exactly when every buffer mapped, stream-on succeeded and the exit status is 1, so a failed capture leaves it on; a failure before mapping leaves the table untouched |
| Framing.FindFrom | comm.c:125-126 | the first occurrence of the pattern at or after a position, and none before it |
| Framing.FindFirst | comm.c:125-126 | `strstr`: the first occurrence of the pattern, or none anywhere |
| Framing.FirstOccurrenceUnique | comm.c:125-126 | the first occurrence of a pattern is unique |
| Framing.FindFirstIs | comm.c:125-126 | `strstr` returns the first occurrence |
| Framing.CString | comm.c:122-126 | the C string is the prefix of the buffer up to the first NUL, and holds no NUL |
| Framing.CStringOfTerminated | comm.c:122 | writing the terminator after the data leaves the C string unchanged |
| Framing.Appended | comm.c:113-122 | the buffer after an append holds the newest bytes of the old contents followed by the chunk, and stays below the 512-byte capacity; the oldest bytes are dropped only when the capacity would be reached |
| Framing.EndFollowsStart | comm.c:129-134 | a first END after a START lies beyond the whole START, so the message length is never negative |
| Framing.ExtractFoundIff | comm.c:125-129 | a message is extracted exactly when the first START comes strictly before the first END |
| Framing.Extract | comm.c:125-150 | an extracted message is shorter than 256 bytes, and extracting always consumes bytes: the rest is strictly shorter than the buffer |
| Framing.ExtractAt | comm.c:129-150 | the message is the bytes after START, truncated to 255, and the rest is everything after END |
| Framing.ExtractIn | comm.c:129-150 | the same, in terms of the C string and the positions `strstr` returned |
| Framing.ExtractNone | comm.c:125-129 | without a START before the first END nothing is extracted |
| Framing.ExtractFound | comm.c:129-150 | with the first START at s and the first END at e > s, the message and the remaining bytes are exactly those after START and after END |
| Framing.NoEndBefore | comm.c:129-137 | the bytes before the first END hold no END |
| Framing.ExtractedMessageShape | comm.c:129-150 | an extracted message is under 256 bytes and holds no NUL and no END; the rest is a suffix of the buffer at least three bytes shorter |
| Framing.StaleEndBlocks | comm.c:125-129 | an END before any START blocks extraction whatever follows it |
| Framing.StepSpec | comm.c:109-155 | a step is idle exactly when the read returned no bytes, and an idle step leaves the buffer as it was |
| Framing.StepKeepsBound | comm.c:113-151 | after a loop step the buffer stays below its capacity, so the terminator write is in bounds; a rejected message is consumed with its END |
| Framing.StepAcceptsOnlyApproved | comm.c:139-150 | the loop returns exactly when an extracted message is approved, and it is the message between the first START and the first END |
| Framing.Accumulator.constructor | comm.c:104-105 | the accumulator starts empty |
| Framing.Accumulator.DropFront | comm.c:117-118 | the first k bytes are dropped and the rest move to the front, in order |
| Framing.Accumulator.Append | comm.c:113-122 | the contents become `Appended` of the old contents and the chunk, NUL-terminated |
| Framing.Accumulator.FindMessage | comm.c:125-137 | a message is found exactly when `Extract` finds one; then it is that message, and the consumed length leaves exactly `Extract`'s rest |
| Framing.Accumulator.Step | comm.c:109-155 | one loop iteration gives the outcome and the new contents that `StepSpec` gives |
| Clock.SetClockFrom | comm.c:37-60 | the clock is set exactly when strptime parses the text, mktime does not return -1 and clock_settime succeeds, and then to the seconds mktime computed |
| CommLoop.ProcessMessageAsWritten | comm.c:66-80 | hands strptime a NULL exactly when the message has no "time" string; otherwise it updates the clock as `SetClockFrom` does |
| CommLoop.ProcessMessage | comm.c:66-80 | sets the clock only from the "time" string of the message, exactly as `SetClockFrom` does, and fails without one |
| CommLoop.ProcessMessageAgrees | comm.c:66-80 | wherever the code as written is defined, the corrected version gives the same outcome and the same seconds |
| CommLoop.EmptyObjectFrameIsCString | comm.c:122-126 | "START{}END" holds no NUL |
| CommLoop.EmptyObjectFrameDelimiters | comm.c:125-126 | `strstr` finds START at 0 and END at 7 in "START{}END" |
| CommLoop.ExtractTenByteFrame | comm.c:129-150 | a NUL-free 10-byte buffer with START at 0 and END at 7 yields its two middle bytes and leaves nothing |
| CommLoop.EmptyObjectFrameExtracts | comm.c:125-150 | "START{}END" yields the message "{}" and leaves nothing |
| CommLoop.EmptyObjectReachesNullTimeString | comm.c:70-72 | for "START{}END", valid JSON without "time", the code as written passes NULL to strptime and the corrected version fails cleanly |
| CommLoop.Step | comm.c:109-155 | one iteration of the comm.c loop, with `process_message` as corrected under Findings, is `StepSpec` judged by JSON validity and `ProcessMessage` |
| CommLoop.StepExitsOnlyWhenClockSet | comm.c:139-150 | with `process_message` as corrected under Findings, comm.c exits exactly when the extracted message is valid JSON whose "time" string sets the clock; a rejected message is dropped with everything before its END |
| FilenameLoop.Step | filename.c:65-106 | one iteration of the filename.c loop is `StepSpec` judged by whether the message sets the clock |
| FilenameLoop.StepExitsOnlyWhenClockSet | filename.c:84-102 | filename.c exits exactly when the extracted message parses as a date and sets the clock; a rejected message is dropped with everything before its END |

## Left out

- Option parsing (`HandleOptions`, getopt): the verbosity flag is a constructor parameter.
- The SIGINT handler, and the `atexit` registration as a mechanism: `Process` runs main and then the exit handler in sequence. A signal arriving mid-loop is not modelled.
- `PrintSetup`: its VIDIOC_G_FMT and VIDIOC_G_PARM queries and its output are left out. The fourcc decoding it prints is modelled as `FourccChars`. The floating-point fps figure is not.
- `clock_gettime`, the elapsed-time and fps report in `Capture`, and any timing bound: there is no clock in the model.
- `perror`, `printf` and `fwrite` output text: `fwrite` of a frame is recorded as a `Frame` (buffer index and byte count) in the payload log, not as the bytes written.
- VIDIOC_STREAMOFF is not an oracle: its result is ignored by the code, and the model records only that streaming stopped.
- The V4L2 constants are given the values of linux/videodev2.h. The kernel headers are not part of this model.
- VIDIOC_REQBUFS is modelled by the count it grants, not by any other field it writes back.
- The `select` timeout value (66 ms) is not modelled: a slot's wait result is an oracle answer.
- `uart_open`, `uart_read`, `uart_close` and the 100 ms sleep: each read is the `n`/`temp` parameter of one step, and the endless loop is modelled one iteration at a time.
- `json_validate` and `json_search` (json_wrapper.c) are oracles. The `strdup`'d result of `json_search` is never freed in comm.c; memory is not modelled.
- `strptime`, `mktime` and `clock_settime` are oracles. `strptime` called with NULL is undefined behaviour in C and is modelled as the distinct outcome `NullTimeString`.
- Framing.Accumulator.FindMessage: `strncpy` and the NUL written after the message are modelled as taking the slice of the C string. The bytes between START and END never hold a NUL, so the two agree.

## Findings

| source | as written | input that shows it | evidently intended | confidence | as-written member | corrected member |
|---|---|---|---|---|---|---|
| comm.c:70-72 | the value of `json_search(msg, "time")` goes to `parse_datetime`, and on to `strptime`, without a NULL check | the frame `START{}END`: the message `{}` is valid JSON with no "time" member, so `json_search` returns NULL | a message without a "time" string is a failed update, and the frame is dropped | not executed | CommLoop.EmptyObjectReachesNullTimeString | CommLoop.ProcessMessage |
