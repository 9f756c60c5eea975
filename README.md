# DS4AudioStreamer audio pipeline, in Dafny

This project models the byte plumbing of DS4AudioStreamer, which streams a PC's
audio to a DualShock 4 controller as SBC-encoded HID output reports. The model
covers five parts:

- **`Buffers`** (`circular_buffer.dfy`): `CircularBuffer<byte>`, the fixed-capacity
  ring with `_start`/`_end` cursors and a `_hasData` flag. Its contents are stated
  exactly as a `seq<byte>`, oldest byte first.
- **`Sbc`** (`sbc_encoder.dfy`): the SharpSBC `SbcEncoder` wrapper. The constructor
  maps rate, sub-bands, channel mode, allocation, bitpool and blocks onto libsbc's
  codes. `Encode` forwards one block to libsbc.
- **`AudioStream`** (`audio_stream.dfy`): `SbcAudioStream`'s capture handler. It
  converts one captured packet to 16-bit PCM, resampling when needed, then appends
  the PCM to a ring. It then drains whole blocks through the encoder into a second
  ring of SBC frames.
- **`NewCapture`** (`new_capture_worker.dfy`): `NewCaptureWorker`'s report loop.
  Each report carries two or four frames, a rolling 16-bit counter and a CRC-32
  trailer.
- **`Capture`** (`capture_worker.dfy`): the older `CaptureWorker`. Its capture
  callback appends to a ring. One pass of its playback loop builds a 335-byte
  Bluetooth report with a fixed feature/volume header, two encoded frames, the
  counter, the CRC and the device id.
- **`Bytes`** (`bytes.dfy`): shared vocabulary. It holds the C# integer widths,
  the little-endian field encodings, and `Array.Copy`/`Array.Fill`.

The collaborators are parameters. Each one's contract is stated, not implemented:

- libsbc is a record of functions (`Sbc.Native`). Its contract is that one encode
  writes exactly the count it reports, and at most one frame.
- libsamplerate is `AudioStream.Converter`. It emits at most the requested number
  of frames, and turns every 4-byte float into a 2-byte short.
- The CRC-32 routine of the unseen `FFT.CRC` library is a function from bytes to a
  32-bit value.
- The native encoder's private memory and the resampler's state are opaque integer
  tokens, threaded from call to call.

Where the source mutates objects the model does too:

- **Classes:** the rings, the encoder, the stream and the workers are classes with
  `modifies` clauses.
- **Buffers:** the C# arrays are Dafny arrays.
- **Loops:** the drain loop, the report loop and the two-frame encode loop are
  `while` and `for` loops carrying invariants.
- **Method contracts:** each method's `ensures` states its effect against a ghost
  function of the old state, such as `Contents()`, `Drain`, `Plan`, `EncodeFrames`
  or `BtReport`.
- **Lemmas:** what the source promises about those functions is proved separately.

## Model

| member | source | states |
|---|---|---|
| Bytes.Le16RoundTrip | DS4AudioStreamer/Sound/NewCaptureWorker.cs:63-64 | the two counter bytes, low byte first, read back as the 16-bit counter |
| Bytes.Le32RoundTrip | DS4AudioStreamer/Sound/NewCaptureWorker.cs:78-81 | the four CRC bytes, low byte first, read back as the 32-bit CRC |
| Bytes.ArrayCopy | DS4AudioStreamer/Sound/CircularBuffer.cs:70-71 | `Array.Copy` between distinct arrays puts the source slice at the destination index; nothing else changes |
| Bytes.ArrayFillZero | DS4AudioStreamer/Sound/CircularBuffer.cs:118 | `Array.Fill` with zero clears exactly `count` bytes from the start index |
| Bytes.StoreBytes | SharpSBC/SbcEncoder.cs:63 | a native routine's store through a pointer overwrites exactly those bytes |
| Buffers.MeasureFacts | DS4AudioStreamer/Sound/CircularBuffer.cs:14-22 | for cursors inside the ring, the length lies in `[0, Capacity]` and the end is that many slots after the start; the length is 0 exactly when the flag is clear, and `Capacity` exactly when the flag is set and the cursors meet |
| Buffers.CircularBuffer.CurrentLength | DS4AudioStreamer/Sound/CircularBuffer.cs:14-22 | the getter's three cases; for a valid ring it lies in `[0, Capacity]` |
| Buffers.CircularBuffer.Contents | DS4AudioStreamer/Sound/CircularBuffer.cs:14-22 | the live bytes from `_start` onward, oldest first, wrapping at the end; there are exactly `CurrentLength` of them |
| Buffers.ModIsWrap | DS4AudioStreamer/Sound/CircularBuffer.cs:78-81 | `% Capacity` applied to a cursor sum below twice the capacity is one conditional subtraction; the cursor updates write `%` as the source does and use this to meet their contracts |
| Buffers.WindowAppend | DS4AudioStreamer/Sound/CircularBuffer.cs:54-86 | appending to a ring that already dropped its oldest bytes keeps the same last-`Capacity` bytes as one big append |
| Buffers.CopyFromCursors | DS4AudioStreamer/Sound/CircularBuffer.cs:56-83 | after an append, the cursors measure `min(old + length, Capacity)`; a zero-length append to an empty ring measures `Capacity` |
| Buffers.CopyFromState | DS4AudioStreamer/Sound/CircularBuffer.cs:56-83 | the new cursors and backing store hold the last `Capacity` bytes of old contents followed by the data; a zero-length append to an empty ring exposes the whole backing store |
| Buffers.TakeState | DS4AudioStreamer/Sound/CircularBuffer.cs:98-120 | removing `k <= length` bytes leaves the rest in order; the cursors meet exactly on an exact drain or on a zero-length read from a full ring, and that read reports length 0 |
| Buffers.DropCursors | DS4AudioStreamer/Sound/CircularBuffer.cs:115-120 | the flag cleared by meeting cursors gives length `n - k`, or 0 after a zero-length read of a full ring |
| Buffers.CircularBuffer.constructor | DS4AudioStreamer/Sound/CircularBuffer.cs:31-37 | a zeroed store of `size` bytes, both cursors at 0, empty |
| Buffers.CircularBuffer.CopyFrom | DS4AudioStreamer/Sound/CircularBuffer.cs:54-86 | the contents become the last `Capacity` bytes of old contents followed by `arr[..length]` (the whole store after a zero-length append to an empty ring); the length becomes `min(old + length, Capacity)` (or `Capacity` in that edge case); `_end` advances by `length` and `_start` by the overflow, both modulo `Capacity`; the flag is set |
| Buffers.CircularBuffer.StoreRuns | DS4AudioStreamer/Sound/CircularBuffer.cs:64-79 | the split copy and the single copy both write the data into consecutive ring slots after `_end`, wrapping; `_end` advances by `length` modulo `Capacity` |
| Buffers.CircularBuffer.TakeLive | DS4AudioStreamer/Sound/CircularBuffer.cs:98-113 | with either split test, the oldest `length` live bytes land at the destination offset in order, and `_start` advances past them; the store is untouched |
| Buffers.CopyWrapped | DS4AudioStreamer/Sound/CircularBuffer.cs:98-107 | the two `Array.Copy` runs of a read crossing the end of the store deliver the wrapped bytes in order |
| Buffers.CircularBuffer.CopyToOffset | DS4AudioStreamer/Sound/CircularBuffer.cs:88-121 | `destination[offset..offset+length)` receives the oldest bytes, then zeros for any shortfall; nothing else in `destination` changes; exactly those bytes are removed and the rest stay in order; an underrun leaves the ring empty with the flag clear; a zero-length read of a full ring empties it |
| Buffers.CircularBuffer.CopyTo | DS4AudioStreamer/Sound/CircularBuffer.cs:123-155 | the same contract as the offset overload at offset 0: despite the `>=` split test, the resulting `_start` and the copied bytes are identical |
| Sbc.ModeCode | SharpSBC/SbcEncoder.cs:9-15 | each `ChannelMode` member's byte is the libsbc code that denotes that member |
| Sbc.ModeCodeInverse | SharpSBC/SbcEncoder.cs:9-15 | a code denotes a member exactly when it is that member's code |
| Sbc.FrequencyCode | SharpSBC/SbcEncoder.cs:30-37 | 16000, 32000, 44100 and 48000 map to the codes of those rates; any other rate keeps the code `sbc_init` left |
| Sbc.SubbandsCode | SharpSBC/SbcEncoder.cs:39 | the code is one of the two sub-band codes, and means four sub-bands exactly when `subBands == 4` |
| Sbc.BlocksCode | SharpSBC/SbcEncoder.cs:48-54 | 4, 8 and 12 keep their block count; every other value, 16 included, means sixteen |
| Sbc.AllocationCode | SharpSBC/SbcEncoder.cs:46 | SNR allocation exactly when `snr`, loudness otherwise |
| Sbc.Configure | SharpSBC/SbcEncoder.cs:24-54 | no configuration when `sbc_init` fails; otherwise `sbc_init`'s flags are kept and every field meets its mapping: frequency, sub-bands, mode, little-endian, bitpool truncated to a byte, allocation and blocks |
| Sbc.SbcEncoder.Init | SharpSBC/SbcEncoder.cs:56-57 | `CodeSize` and `FrameSize` are what libsbc reports for the configured state |
| Sbc.SbcEncoder.Create | SharpSBC/SbcEncoder.cs:22-58 | the constructor fails exactly when `sbc_init` fails; otherwise it yields an encoder over `Configure`'s state |
| Sbc.SbcEncoder.Encode | SharpSBC/SbcEncoder.cs:60-67 | libsbc gets the `CodeSize` bytes at the source and the caller's `dstSize`; the consumed count is returned, and the written count comes back through `encoded`; exactly the bytes libsbc wrote change at the destination; the source is untouched |
| AudioStream.FloatToShortArray | DS4AudioStreamer/Sound/SbcAudioStream.cs:115-119 | `len` floats from the source become shorts at the front of the destination; the rest of the destination is untouched |
| AudioStream.Convert | DS4AudioStreamer/Sound/SbcAudioStream.cs:88-121 | at 32000 Hz, no resampling and `(BytesRecorded / 4) * 2` PCM bytes; otherwise the resampler is offered `sampleCount / 2` frames in and out, its status is the verdict, and on success `output_frames_gen * 2 * 2` PCM bytes result |
| AudioStream.DrainStep | DS4AudioStreamer/Sound/SbcAudioStream.cs:125-141 | one loop pass encodes the oldest `CodeSize` bytes and keeps the result only when its length is positive |
| AudioStream.DrainLoopStep | DS4AudioStreamer/Sound/SbcAudioStream.cs:125-141 | a loop pass preserves the drain invariant: the bytes kept so far, then what the rest of the drain keeps, are the whole drain's frames |
| AudioStream.DrainDone | DS4AudioStreamer/Sound/SbcAudioStream.cs:125 | the loop stops once less than one block is pending |
| AudioStream.DrainShape | DS4AudioStreamer/Sound/SbcAudioStream.cs:123-141 | the drain makes exactly `L / CodeSize` encode calls, each on one whole block with no zero fill; the blocks are the pending PCM in order, and fewer than `CodeSize` bytes remain |
| AudioStream.WindowMore | DS4AudioStreamer/Sound/SbcAudioStream.cs:140 | appending encoded frames to the frame ring one call at a time equals appending them all at once |
| AudioStream.SbcAudioStream.constructor | DS4AudioStreamer/Sound/SbcAudioStream.cs:33-66 | given the encoder the source builds (32000 Hz, 8 sub-bands, bitpool 48, joint stereo, SNR, 16 blocks), the stream holds two empty rings of `bufferSize` bytes, conversion buffers of the same size, a pre-buffer of `CodeSize` bytes and a post-buffer of `FrameSize` bytes, all distinct |
| AudioStream.SbcAudioStream.CurrentFrameCount | DS4AudioStreamer/Sound/SbcAudioStream.cs:29-31 | the number of whole frames in the frame ring: `r * FrameSize <= length < (r + 1) * FrameSize` |
| AudioStream.SbcAudioStream.WaitUntilFrames | DS4AudioStreamer/Sound/SbcAudioStream.cs:73-77 | `WaitUntil(k)`'s exit condition holds exactly when at least `k` whole frames are buffered |
| AudioStream.SbcAudioStream.OnDataAvailable | DS4AudioStreamer/Sound/SbcAudioStream.cs:84-147 | a failing `src_process` is caught and both rings and the encoder are untouched; otherwise the new PCM is appended as `CopyFrom` appends; the PCM ring then holds what `Drain` leaves of that, and the frame ring gets the frames `Drain` keeps, in call order, with the resampler and encoder state threaded through |
| AudioStream.SbcAudioStream.Reformat | DS4AudioStreamer/Sound/SbcAudioStream.cs:88-121 | the status, the resampler state and the PCM at the front of the reformat buffer are exactly `Convert`'s |
| AudioStream.SbcAudioStream.Resample | DS4AudioStreamer/Sound/SbcAudioStream.cs:96-114 | `src_process` on the packet's whole frames; its float output lands at the front of the resample buffer |
| AudioStream.SbcAudioStream.DrainAudio | DS4AudioStreamer/Sound/SbcAudioStream.cs:125-141 | the loop ends with `Drain`'s leftover in the PCM ring and `Drain`'s kept frames appended to the frame ring |
| AudioStream.SbcAudioStream.EncodeBlock | DS4AudioStreamer/Sound/SbcAudioStream.cs:127-140 | one pass removes exactly `CodeSize` bytes, encodes them, and appends the output only when the reported length is positive |
| NewCapture.ChooseBatch | DS4AudioStreamer/Sound/NewCaptureWorker.cs:44-55 | 4 frames, protocol 0x17, 462 bytes exactly when at least four frames are buffered; otherwise 2 frames, 0x14, 270 bytes; never more frames than are buffered |
| NewCapture.BatchFits | DS4AudioStreamer/Sound/NewCaptureWorker.cs:57-75 | for frames of at most 113 bytes, the payload fits between the header and the CRC, and the report fits the 640-byte buffer |
| NewCapture.ReportFields | DS4AudioStreamer/Sound/NewCaptureWorker.cs:57-81 | a report is `size` bytes: protocol, 0x40, 0xA2, the counter little-endian, then 0x24; the payload follows at 6; zeros run up to `size - 4`; the trailer is the CRC-32 of 0xA2 followed by the first `size - 4` bytes |
| NewCapture.PlanShape | DS4AudioStreamer/Sound/NewCaptureWorker.cs:40-85 | the loop leaves fewer than two frames; every report is 462 or 270 bytes long; the first carries the starting counter, and each later one carries the previous counter advanced by the previous batch's frames modulo 65536 |
| NewCapture.PlanPayloads | DS4AudioStreamer/Sound/NewCaptureWorker.cs:40-85 | the reports' payloads, in order, followed by the leftover bytes, are exactly the buffered frames the loop started from |
| NewCapture.PlanLoopStep | DS4AudioStreamer/Sound/NewCaptureWorker.cs:40-85 | one pass preserves the loop invariant: the reports sent, then the ones still planned, are the whole loop's |
| NewCapture.PlanDone | DS4AudioStreamer/Sound/NewCaptureWorker.cs:40 | with fewer than two frames buffered, the loop sends nothing |
| NewCapture.BodyImage | DS4AudioStreamer/Sound/NewCaptureWorker.cs:57-71 | the cleared buffer, after the header and the payload, holds the checksummed body followed by zeros |
| NewCapture.ReportImage | DS4AudioStreamer/Sound/NewCaptureWorker.cs:57-83 | after the trailer, the buffer's first `size` bytes are the report and the rest are zeros |
| NewCapture.NewCaptureWorker.constructor | DS4AudioStreamer/Sound/NewCaptureWorker.cs:10-33 | a fresh 640-byte output buffer, the counter at 0, nothing sent yet |
| NewCapture.NewCaptureWorker.SendReports | DS4AudioStreamer/Sound/NewCaptureWorker.cs:40-85 | the loop sends exactly `Plan`'s reports in order, ends with `Plan`'s counter, leaves `Plan`'s leftover frames, and stops with fewer than two frames buffered |
| NewCapture.NewCaptureWorker.SendReport | DS4AudioStreamer/Sound/NewCaptureWorker.cs:42-84 | one pass removes exactly `frames * frameSize` bytes and writes the report of `ChooseBatch` over them with the pre-increment counter; `size` bytes are sent; the counter advances by `frames` modulo 65536 |
| NewCapture.NewCaptureWorker.StageReport | DS4AudioStreamer/Sound/NewCaptureWorker.cs:57-71 | the cleared buffer receives the header and then the oldest `length` frame bytes at offset 6, and exactly those bytes leave the ring |
| NewCapture.NewCaptureWorker.WriteHeader | DS4AudioStreamer/Sound/NewCaptureWorker.cs:59-67 | bytes 0 to 5 become the header and nothing else changes |
| NewCapture.NewCaptureWorker.WriteTrailer | DS4AudioStreamer/Sound/NewCaptureWorker.cs:78-81 | bytes `size - 4` to `size - 1` become the CRC, low byte first, and nothing else changes |
| Capture.BtReportFields | DS4AudioStreamer/Sound/CaptureWorker.cs:137-176 | the report holds the following: the header in bytes 0..25; bytes 26..77 unchanged; the counter little-endian at 78; 0x24 at 80; the encoded frames from 81; the old bytes up to 330; at 330, the CRC-32 of 0xA2 followed by bytes 0..329; the id at 334 |
| Capture.EncodeFramesStep | DS4AudioStreamer/Sound/CaptureWorker.cs:128-133 | each call encodes the next `CodeSize` bytes, and its output lands right after the previous call's |
| Capture.EncodeFramesLength | DS4AudioStreamer/Sound/CaptureWorker.cs:128-133 | `k` calls write at most `k` frames |
| Capture.EncodeFramesPrefix | DS4AudioStreamer/Sound/CaptureWorker.cs:119-133 | the encode loop depends only on the first `k * CodeSize` bytes of its input |
| Capture.SampleSizes | DS4AudioStreamer/Sound/CaptureWorker.cs:91-93 | for `minData = CodeSize * 2 * 2`, `minData / 2` floats are exactly the `2 * minData` bytes of the sample buffer, and they become `minData` bytes of shorts |
| Capture.PassComposes | DS4AudioStreamer/Sound/CaptureWorker.cs:107-178 | taking the samples, converting them, encoding and sealing together make up one playback pass (`PassBuilt`) |
| Capture.CaptureWorker.constructor | DS4AudioStreamer/Sound/CaptureWorker.cs:31-63 | given the encoder the source builds (the capture rate, 8 sub-bands, bitpool 51, joint stereo, SNR, 16 blocks), the worker holds an empty 80000-byte ring, is not capturing, has no rumble and a magenta lightbar |
| Capture.CaptureWorker.Start | DS4AudioStreamer/Sound/CaptureWorker.cs:65-69 | capturing is on |
| Capture.CaptureWorker.StopPlayback | DS4AudioStreamer/Sound/CaptureWorker.cs:193-196 | capturing is off |
| Capture.CaptureWorker.OnDataAvailable | DS4AudioStreamer/Sound/CaptureWorker.cs:71-87 | nothing happens when not capturing or when `BytesRecorded <= 0`; otherwise exactly `BytesRecorded` bytes are appended, keeping the last 80000 |
| Capture.PlaybackLoop.constructor | DS4AudioStreamer/Sound/CaptureWorker.cs:91-97 | sample buffers of `2 * minData` bytes, a zeroed 335-byte report buffer, the counter at 0 |
| Capture.PlaybackLoop.Iterate | DS4AudioStreamer/Sound/CaptureWorker.cs:103-190 | stops exactly when capturing is off; waits, touching nothing, exactly when fewer than `minData` bytes are buffered; otherwise builds one report (`PassBuilt`): the oldest `minData` bytes move into the sample buffer, two blocks are encoded back to back from byte 81, the header, counter, CRC and id are laid over the previous report, and the counter advances by 2 modulo 65536; bytes 26..77 stay zero throughout |
| Capture.PlaybackLoop.BuildReport | DS4AudioStreamer/Sound/CaptureWorker.cs:107-178 | the loop body once enough samples are buffered makes exactly the `PassBuilt` step |
| Capture.PlaybackLoop.TakeSamples | DS4AudioStreamer/Sound/CaptureWorker.cs:107-113 | the oldest `minData` ring bytes fill the front of the sample buffer with no zero fill, and exactly they leave the ring |
| Capture.PlaybackLoop.ConvertSamples | DS4AudioStreamer/Sound/CaptureWorker.cs:115-121 | the conversion reads all of the sample buffer and writes its shorts at the front of the short buffer |
| Capture.PlaybackLoop.EncodeAll | DS4AudioStreamer/Sound/CaptureWorker.cs:123-134 | two encode calls from byte 81: the source advances by `CodeSize` and the destination by each call's `encoded`; the output ends at or before byte 330 |
| Capture.PlaybackLoop.SealReport | DS4AudioStreamer/Sound/CaptureWorker.cs:137-178 | the header, then the counter and 0x24, then the CRC over 0xA2 and bytes 0..329, then the id; the counter advances by 2 modulo 65536 |
| Capture.PlaybackLoop.WriteHeader | DS4AudioStreamer/Sound/CaptureWorker.cs:137-156 | bytes 0..25 become the status header and nothing else changes |
| Capture.PlaybackLoop.WriteFlags | DS4AudioStreamer/Sound/CaptureWorker.cs:137-142 | bytes 0..5 become 0x15, 0xC4, 0xA2, 0xF3, 0x04, 0x00 |
| Capture.PlaybackLoop.WriteLights | DS4AudioStreamer/Sound/CaptureWorker.cs:143-149 | bytes 6..12 become the rumble, the lightbar colour and the flash timing |
| Capture.PlaybackLoop.WriteEmpty | DS4AudioStreamer/Sound/CaptureWorker.cs:150-151 | bytes 13..20 become zero |
| Capture.PlaybackLoop.WriteVolumes | DS4AudioStreamer/Sound/CaptureWorker.cs:152-156 | bytes 21..25 become 0x48, 0x48, 0x00, 0x90, 0x85 |
| Capture.PlaybackLoop.WriteCounter | DS4AudioStreamer/Sound/CaptureWorker.cs:158-162 | bytes 78 and 79 become the counter, low byte first, and byte 80 becomes 0x24 |
| Capture.PlaybackLoop.WriteTrailer | DS4AudioStreamer/Sound/CaptureWorker.cs:166-176 | bytes 330..333 become the CRC, low byte first, and byte 334 becomes the id |

## Left out

- **Concurrency:** these are dropped: the locks on the rings and on the socket
  root, the worker threads, the `Thread.Yield` spin loops and `while (true)`.
  Each handler call and each loop pass is one sequential method.
- `WaitUntil`'s spin loop: it is modelled by its exit condition (`WaitUntilDone`)
  and a lemma. A loop that waits for another thread does not terminate when run
  sequentially.
- **I/O:**
  - WASAPI capture (`MyLoopbackCapture`, `StartRecording`, `StopRecording`) is left out.
  - HID enumeration (`DeviceEnumerator`) is left out.
  - The device stream's `Write` and `Flush` are modelled as the `sent` sequence of
    reports.
  - The old worker's socket send is commented out in the source, so that report is
    only the buffer's final contents.
- **Numerics:** resampling, float-to-short conversion and SBC encoding are native
  floating-point code. They are parameters with length contracts only. The
  resampler's `src_ratio` and the `input_frames_used` diagnostic are not modelled.
- **CRC-32:** `FFT.CRC` is not part of this model. No polynomial or seed is fixed;
  only which bytes are covered and where the result goes.
- **Bootstrap:** `Program.cs`, `AccurateTimer.cs`, `SbcDecoder.cs` and `Dispose`
  are not part of this model.
- **Glitch logging:** the "Glitch", "Not encoded" and exception messages are
  console logging and are left out. `Glitches` is never incremented, so there is
  no counter.
- `CircularBuffer.AddSample`: it is unused, never stores its sample except at the
  wrap point, and can push `_end` out of the ring.
- **Resource acquisition:** failure of `src_new` in the stream constructor is not
  modelled; the resampler state is given. The buffer size
  (`ConvertLatencyToByteSize(32)`) and the capture rate are parameters.
- **Sizes and casts:** `(int)` casts from `ulong` `CodeSize`/`FrameSize` are
  dropped; both sizes are treated as non-negative and small.
- Buffers.CircularBuffer.CopyFrom: requires `length <= Capacity` and the source
  not to be the ring's own store; every caller passes at most the ring's capacity.
  The source itself also accepts longer appends: for
  `Capacity < length < 2 * Capacity - _end` both copies stay in bounds and the
  ring ends full with its newest `Capacity` bytes; at `2 * Capacity - _end` it
  leaves `_end` equal to `Capacity`, outside the ring; only above that does
  `Array.Copy` throw. These longer appends are not modelled, and neither is a copy
  from the ring's own store, which would read bytes it has just overwritten.
- Buffers.CircularBuffer.constructor: requires a positive size; a zero-capacity
  ring throws on its first `% Capacity`.
- Buffers.CircularBuffer.CopyTo: requires the destination not to be the ring's own
  store (aliasing is not modelled).
- Capture.CaptureWorker.OnDataAvailable: requires a packet of at most 80000 bytes,
  the bound under which `CopyFrom` is modelled; longer packets, which the source
  handles as described for `Buffers.CircularBuffer.CopyFrom`, are not modelled.
- Sbc.SbcEncoder.Create: the constructor's exception is modelled as a `null`
  result.
- AudioStream.SbcAudioStream.OnDataAvailable:
  - requires the converted packet to fit the work buffers (`ConversionFits`). A
    larger packet is not a caught exception: `src_process` and
    `src_float_to_short_array` write through raw pointers into the resample and
    reformat buffers with no bounds check, so it overruns them, which is undefined
    behaviour. `ConversionFits` excludes that overrun.
  - does not state the final contents of its four scratch buffers.
- **Encoded frame sizes:** two preconditions stand in for the configured frame
  length. The source does not check either; they are assumptions of its design.
  - NewCapture.NewCaptureWorker.constructor: requires frames of at most 113 bytes,
    so four frames fit a 462-byte report.
  - Capture.PlaybackLoop.constructor: requires two frames to fit between byte 81
    and the CRC at byte 330.
- NewCapture.NewCaptureWorker.SendReports: the counter `lilEndianCounter` is a
  field rather than a local. The outer `while (true)` would otherwise make it
  unreachable between passes.
- Capture.PlaybackLoop.Iterate:
  - the source converts `minData / 2` floats, which is the whole sample buffer,
    including a second half left by the previous pass. The model states this as
    written. It does not claim that only the fresh half reaches the encoder,
    because that holds only if the conversion is element-wise, and the model does
    not assume it.
  - bytes between the end of the frames and byte 330 keep the previous report's
    contents. Its result is stated over the previous buffer contents.
