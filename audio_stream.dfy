/** `SbcAudioStream`: the capture handler turns each captured packet of 32-bit
    float stereo into 16-bit PCM at 32 kHz, appends it to a PCM ring, and feeds
    the ring block by block to the SBC encoder, whose frames collect in a second
    ring that the report writer drains. libsamplerate is a parameter
    (`Converter`) whose contract is stated, not implemented. */
module AudioStream {
  import opened Bytes
  import opened Buffers
  import opened Sbc

  const StreamSampleRate := 32000
  const ChannelCount := 2

  /** What `src_process` reports: its status, `output_frames_gen`, the float
      bytes it wrote to `data_out`, and the converter's memory afterwards. */
  datatype Resampled = Resampled(error: int, framesGenerated: nat, output: seq<byte>, state: int)

  /** The libsamplerate entry points the handler calls: `src_process` (with
      the ratio fixed when the stream was built) given the converter memory,
      the input floats and the `input_frames`/`output_frames` counts; and
      `src_float_to_short_array`. */
  datatype Converter = Converter(
    process: (int, seq<byte>, nat, nat) -> Resampled,
    floatToShort: seq<byte> -> seq<byte>)

  function ProcessCall(conv: Converter, state: int, input: seq<byte>, inFrames: nat, outFrames: nat): Resampled {
    conv.process(state, input, inFrames, outFrames)
  }

  function ToShortCall(conv: Converter, floats: seq<byte>): seq<byte> {
    conv.floatToShort(floats)
  }

  /** libsamplerate's promises: no more than `output_frames` frames come out,
      each two 4-byte floats; every 4-byte float becomes one 2-byte short. */
  ghost predicate Converts(conv: Converter) {
    (forall state, input, inFrames, outFrames ::
       var r := ProcessCall(conv, state, input, inFrames, outFrames);
       r.framesGenerated <= outFrames && |r.output| == r.framesGenerated * 4 * ChannelCount) &&
    (forall floats :: |ToShortCall(conv, floats)| == |floats| / 4 * 2)
  }

  /** `src_float_to_short_array(src, dst, len)`: `len` floats read from
      `src` become `len` shorts at the front of `dst`. */
  method FloatToShortArray(conv: Converter, src: array<byte>, dst: array<byte>, len: nat)
    requires Converts(conv) && len * 4 <= src.Length && len * 2 <= dst.Length
    modifies dst
    ensures dst[..] == Overlay(old(dst[..]), 0, ToShortCall(conv, old(src[..len * 4])))
    ensures dst[..len * 2] == ToShortCall(conv, old(src[..len * 4]))
  {
    var pcm := ToShortCall(conv, src[..len * 4]);
    StoreBytes(dst, 0, pcm);
    OverlayFront(old(dst[..]), pcm);
  }

  /** The converter's verdict on one packet: `src_process`'s status (0 when
      no resampling is needed), the 16-bit PCM to append, and the converter
      memory afterwards. */
  datatype Conversion = Conversion(error: int, pcm: seq<byte>, state: int)

  /** The conversion half of the handler on the `captured` bytes of one packet.
      At the stream rate each float of the packet becomes a short; otherwise
      the resampler is offered the packet's whole stereo frames as both input
      and output frame counts, and its output becomes shorts when it reports
      success. */
  function Convert(conv: Converter, captureRate: int, state: int, captured: seq<byte>): (c: Conversion)
    requires Converts(conv)
    ensures captureRate == StreamSampleRate ==>
              c.error == 0 && c.state == state && |c.pcm| == (|captured| / 4) * 2
    ensures captureRate != StreamSampleRate ==>
              var frames := |captured| / 4 / ChannelCount;
              var r := ProcessCall(conv, state, captured[..frames * 4 * ChannelCount], frames, frames);
              c.error == r.error && c.state == r.state &&
              (c.error == 0 ==> |c.pcm| == r.framesGenerated * ChannelCount * 2)
  {
    var sampleCount := |captured| / 4;
    if captureRate != StreamSampleRate then
      var frames := sampleCount / ChannelCount;
      var r := ProcessCall(conv, state, captured[..frames * 4 * ChannelCount], frames, frames);
      if r.error != 0 then Conversion(r.error, [], r.state)
      else Conversion(0, ToShortCall(conv, r.output), r.state)
    else
      Conversion(0, ToShortCall(conv, captured[..sampleCount * 4]), state)
  }

  /** What the drain loop does with pending PCM: the blocks it hands the
      encoder in call order, the encoded bytes it keeps, the encoder memory
      afterwards, and the PCM left in the ring. */
  datatype Drained = Drained(blocks: seq<seq<byte>>, frames: seq<byte>, priv: int, rest: seq<byte>)

  /** What the handler appends after one `Encode`: nothing when the reported
      length is not positive ("Not encoded"), otherwise the bytes written. */
  function Kept(r: EncodeResult): seq<byte> {
    if r.written <= 0 then [] else r.output
  }

  /** The drain loop on `pending`: while a whole block remains, the oldest
      `codeSize` bytes are encoded, and the result is kept only when the
      reported length is positive. */
  function Drain(e: SbcEncoder, priv: int, pending: seq<byte>): Drained
    requires e.codeSize > 0
    decreases |pending|
  {
    if |pending| < e.codeSize then Drained([], [], priv, pending)
    else
      var r := EncodeCall(e.lib, e.sbc, priv, pending[..e.codeSize], e.codeSize);
      var d := Drain(e, r.priv, pending[e.codeSize..]);
      Drained([pending[..e.codeSize]] + d.blocks, Kept(r) + d.frames, d.priv, d.rest)
  }

  /** One unfolding of the drain loop on a whole block. */
  lemma DrainStep(e: SbcEncoder, priv: int, pending: seq<byte>)
    requires 0 < e.codeSize <= |pending|
    ensures var r := EncodeCall(e.lib, e.sbc, priv, pending[..e.codeSize], e.codeSize);
            var d, t := Drain(e, priv, pending), Drain(e, r.priv, pending[e.codeSize..]);
            d.frames == Kept(r) + t.frames && d.priv == t.priv && d.rest == t.rest
  {
  }

  /** The loop invariant of the drain: what is still to come from the pending
      PCM, after the bytes kept so far, is what the whole drain produces. */
  predicate DrainedSoFar(target: Drained, kept: seq<byte>, d: Drained) {
    target.frames == kept + d.frames && target.priv == d.priv && target.rest == d.rest
  }

  lemma DrainLoopStep(e: SbcEncoder, priv: int, pending: seq<byte>, target: Drained, kept: seq<byte>)
    requires 0 < e.codeSize <= |pending|
    requires DrainedSoFar(target, kept, Drain(e, priv, pending))
    ensures var r := EncodeCall(e.lib, e.sbc, priv, pending[..e.codeSize], e.codeSize);
            DrainedSoFar(target, kept + Kept(r), Drain(e, r.priv, pending[e.codeSize..]))
  {
    var r := EncodeCall(e.lib, e.sbc, priv, pending[..e.codeSize], e.codeSize);
    DrainStep(e, priv, pending);
    assert kept + (Kept(r) + Drain(e, r.priv, pending[e.codeSize..]).frames) == kept + Kept(r) + Drain(e, r.priv, pending[e.codeSize..]).frames;
  }

  /** `kept` then `piece` appended to a ring that held `s0`, one at a time. */
  lemma WindowMore(s0: seq<byte>, kept: seq<byte>, piece: seq<byte>, c: nat)
    requires |s0| <= c
    ensures Window(s0 + [], c) == s0
    ensures Window(Window(s0 + kept, c) + piece, c) == Window(s0 + (kept + piece), c)
  {
    assert s0 + [] == s0;
    WindowAppend(s0 + kept, piece, c);
    assert s0 + kept + piece == s0 + (kept + piece);
  }

  /** The drain loop stops when less than a block is pending. */
  lemma DrainDone(e: SbcEncoder, priv: int, pending: seq<byte>)
    requires |pending| < e.codeSize
    ensures Drain(e, priv, pending) == Drained([], [], priv, pending)
  {
  }

  /** The blocks laid end to end. */
  function Flatten(blocks: seq<seq<byte>>): seq<byte> {
    if blocks == [] then [] else blocks[0] + Flatten(blocks[1..])
  }

  /** The drain loop makes `|pending| / codeSize` encoder calls, each on one
      whole block; the blocks are the pending PCM in order, and less than one
      block is left behind. */
  lemma {:induction false} DrainShape(e: SbcEncoder, priv: int, pending: seq<byte>)
    requires e.codeSize > 0
    ensures var d, c := Drain(e, priv, pending), e.codeSize;
            |d.blocks| == |pending| / c &&
            (forall i :: 0 <= i < |d.blocks| ==> |d.blocks[i]| == c) &&
            Flatten(d.blocks) + d.rest == pending && |d.rest| < c
    decreases |pending|
  {
    var c := e.codeSize;
    if |pending| >= c {
      var r := EncodeCall(e.lib, e.sbc, priv, pending[..c], c);
      var tail := pending[c..];
      DrainShape(e, r.priv, tail);
      var d, t := Drain(e, priv, pending), Drain(e, r.priv, tail);
      DivStep(|pending|, c);
      assert |d.blocks| == |t.blocks| + 1 == |pending| / c;
      assert d.blocks[1..] == t.blocks;
      assert Flatten(d.blocks) == pending[..c] + Flatten(t.blocks) && d.rest == t.rest;
      ConcatAssoc(pending[..c], Flatten(t.blocks), t.rest);
      TakeDrop(pending, c);
    } else {
      FloorDivUnique(|pending|, c, 0, |pending|);
      assert Drain(e, priv, pending).rest == pending;
    }
  }

  lemma DivStep(n: nat, c: nat)
    requires 0 < c <= n
    ensures (n - c) / c == n / c - 1
  {
    var q, r := n / c, n % c;
    assert n - c == (q - 1) * c + r;
    FloorDivUnique(n - c, c, q - 1, r);
  }

  /** Quotient and remainder are determined by the division equation. */
  lemma FloorDivUnique(n: int, c: int, q: int, r: int)
    requires 0 < c && 0 <= r < c && n == q * c + r
    ensures n / c == q && n % c == r
  {
    var q', r' := n / c, n % c;
    assert n == q' * c + r';
    if q' < q {
      assert q * c - q' * c == (q - q') * c;
      MulAtLeast(q - q', c);
    } else if q' > q {
      assert q' * c - q * c == (q' - q) * c;
      MulAtLeast(q' - q, c);
    }
  }

  lemma MulAtLeast(k: int, c: int)
    requires k >= 1 && c > 0
    ensures k * c >= c
  {
  }

  /** The stream's four work buffers and the two ring backing stores are six different arrays. */
  predicate ArraysApart(resampled: array<byte>, reformatted: array<byte>, pre: array<byte>, post: array<byte>,
                        ring1: array<byte>, ring2: array<byte>) {
    resampled != reformatted && resampled != pre && resampled != post && resampled != ring1 && resampled != ring2 &&
    reformatted != pre && reformatted != post && reformatted != ring1 && reformatted != ring2 &&
    pre != post && pre != ring1 && pre != ring2 && post != ring1 && post != ring2
  }

  class SbcAudioStream {
    const encoder: SbcEncoder
    const converter: Converter
    /** The capture device's sample rate. */
    const captureRate: int
    var resamplerState: int
    const audioData: CircularBuffer
    const sbcAudioData: CircularBuffer
    const resampledAudioBuffer: array<byte>
    const reformattedAudioBuffer: array<byte>
    const sbcPreBuffer: array<byte>
    const sbcPostBuffer: array<byte>

    /** What the constructor sets up: both rings and both conversion buffers
        of the same size, a pre-buffer of one block and a post-buffer of one
        frame, all distinct; and collaborators that keep their contracts. */
    ghost predicate Valid()
      reads this, audioData, sbcAudioData
    {
      audioData.Valid() && sbcAudioData.Valid() && encoder.Valid() && Converts(converter) &&
      audioData != sbcAudioData &&
      audioData.backing != sbcAudioData.backing &&
      ArraysApart(resampledAudioBuffer, reformattedAudioBuffer, sbcPreBuffer, sbcPostBuffer,
                  audioData.backing, sbcAudioData.backing) &&
      0 < encoder.codeSize == sbcPreBuffer.Length &&
      0 < encoder.frameSize == sbcPostBuffer.Length <= sbcAudioData.Capacity() &&
      resampledAudioBuffer.Length == reformattedAudioBuffer.Length == audioData.Capacity()
    }

    /** The constructor, given the encoder it builds (32 kHz, eight sub-bands,
        bitpool 48, joint stereo, SNR allocation, sixteen blocks), the byte size
        of 32 ms of the capture format, and the converter memory `src_new`
        returned. */
    constructor (encoder: SbcEncoder, converter: Converter, captureRate: int, bufferSize: nat, resamplerState: int)
      requires encoder.Valid() && Converts(converter)
      requires Some(encoder.sbc) == Configure(encoder.lib, StreamSampleRate, 8, 48, JointStereo, true, 16)
      requires 0 < encoder.codeSize && 0 < encoder.frameSize <= bufferSize
      ensures Valid() && this.encoder == encoder && this.captureRate == captureRate
      ensures this.resamplerState == resamplerState && this.converter == converter
      ensures audioData.Capacity() == sbcAudioData.Capacity() == bufferSize
      ensures audioData.Contents() == [] && sbcAudioData.Contents() == []
      ensures fresh(audioData) && fresh(sbcAudioData) && fresh(audioData.backing) && fresh(sbcAudioData.backing)
    {
      this.encoder, this.converter, this.captureRate, this.resamplerState := encoder, converter, captureRate, resamplerState;
      sbcPreBuffer := new byte[encoder.codeSize](_ => 0);
      sbcPostBuffer := new byte[encoder.frameSize](_ => 0);
      audioData := new CircularBuffer(bufferSize);
      sbcAudioData := new CircularBuffer(bufferSize);
      resampledAudioBuffer := new byte[bufferSize](_ => 0);
      reformattedAudioBuffer := new byte[bufferSize](_ => 0);
    }

    /** `FrameSize`. */
    function FrameSize(): nat {
      encoder.frameSize
    }

    /** `CurrentFrameCount`: the number of whole frames in the encoded ring. */
    function CurrentFrameCount(): (r: int)
      reads this, audioData, sbcAudioData
      requires Valid()
      ensures 0 <= r
      ensures r * FrameSize() <= sbcAudioData.CurrentLength() < (r + 1) * FrameSize()
    {
      sbcAudioData.CurrentLength() / FrameSize()
    }

    /** The condition `WaitUntil(frameCount)` spins on, negated: the call
        returns once this holds. */
    predicate WaitUntilDone(frameCount: int)
      reads this, audioData, sbcAudioData
    {
      sbcAudioData.CurrentLength() >= frameCount * FrameSize()
    }

    /** `WaitUntil(k)` returns exactly when at least `k` whole frames are buffered. */
    lemma WaitUntilFrames(frameCount: int)
      requires Valid()
      ensures WaitUntilDone(frameCount) <==> CurrentFrameCount() >= frameCount
    {
      var r, f, n := CurrentFrameCount(), FrameSize(), sbcAudioData.CurrentLength();
      if frameCount <= r {
        MulMonotone(frameCount, r, f);
      } else {
        MulMonotone(r + 1, frameCount, f);
      }
    }

    /** Whether a packet of `bytesRecorded` bytes fits the conversion buffers:
        the shorts of a packet at the stream rate, or the resampler's output. */
    predicate ConversionFits(bytesRecorded: nat) {
      (captureRate == StreamSampleRate ==> (bytesRecorded / 4) * 2 <= reformattedAudioBuffer.Length) &&
      (captureRate != StreamSampleRate ==> (bytesRecorded / 4 / ChannelCount) * 4 * ChannelCount <= resampledAudioBuffer.Length)
    }

    /** `CaptureDeviceOnDataAvailable`: convert the packet, append the PCM,
        and drain whole blocks through the encoder. A failing `src_process`
        throws inside the handler's `try`, which catches it: nothing is appended. */
    method OnDataAvailable(buffer: array<byte>, bytesRecorded: nat)
      requires Valid() && bytesRecorded <= buffer.Length && ConversionFits(bytesRecorded)
      modifies this, encoder`priv, audioData, audioData.backing, sbcAudioData, sbcAudioData.backing
      modifies resampledAudioBuffer, reformattedAudioBuffer, sbcPreBuffer, sbcPostBuffer
      ensures Valid()
      ensures var c := Convert(converter, captureRate, old(resamplerState), old(buffer[..bytesRecorded]));
              resamplerState == c.state &&
              (c.error != 0 ==> unchanged(encoder, audioData, audioData.backing, sbcAudioData, sbcAudioData.backing)) &&
              (c.error == 0 ==>
                 var d := Drain(encoder, old(encoder.priv), old(audioData.AfterCopyFrom(c.pcm)));
                 audioData.Contents() == d.rest && encoder.priv == d.priv &&
                 sbcAudioData.Contents() == Window(old(sbcAudioData.Contents()) + d.frames, sbcAudioData.Capacity()))
    {
      var error, count := Reformat(buffer, bytesRecorded);
      if error != 0 {
        return;
      }
      audioData.CopyFrom(reformattedAudioBuffer, count * 2);
      DrainAudio();
    }

    /** The `fixed` block of the handler: resample when the capture rate is
        not the stream rate, then turn floats into shorts in the reformat
        buffer. `count` is the handler's `reformatedSampleCount`. */
    method Reformat(buffer: array<byte>, bytesRecorded: nat) returns (error: int, count: nat)
      requires Valid() && bytesRecorded <= buffer.Length && ConversionFits(bytesRecorded)
      modifies this`resamplerState, resampledAudioBuffer, reformattedAudioBuffer
      ensures var c := Convert(converter, captureRate, old(resamplerState), old(buffer[..bytesRecorded]));
              error == c.error && resamplerState == c.state &&
              (error == 0 ==> count * 2 == |c.pcm| <= reformattedAudioBuffer.Length &&
                              reformattedAudioBuffer[..count * 2] == c.pcm)
    {
      var sampleCount := bytesRecorded / 4;
      ghost var captured := buffer[..bytesRecorded];
      if StreamSampleRate != captureRate {
        var frames := sampleCount / ChannelCount;
        assert buffer[..frames * 4 * ChannelCount] == captured[..frames * 4 * ChannelCount];
        var r := Resample(buffer, frames);
        if r.error != 0 {
          return r.error, sampleCount;
        }
        count := r.framesGenerated * ChannelCount;
        FloatToShortArray(converter, resampledAudioBuffer, reformattedAudioBuffer, count);
        assert resampledAudioBuffer[..count * 4] == r.output;
      } else {
        assert buffer[..sampleCount * 4] == captured[..sampleCount * 4];
        FloatToShortArray(converter, buffer, reformattedAudioBuffer, sampleCount);
        count := sampleCount;
      }
      error := 0;
    }

    /** `src_process` on the first `frames` stereo frames of `buffer`, with
        room for as many frames out, writing into the resample buffer. */
    method Resample(buffer: array<byte>, frames: nat) returns (r: Resampled)
      requires Valid() && frames * 4 * ChannelCount <= buffer.Length
      requires frames * 4 * ChannelCount <= resampledAudioBuffer.Length
      modifies this`resamplerState, resampledAudioBuffer
      ensures r == ProcessCall(converter, old(resamplerState), old(buffer[..frames * 4 * ChannelCount]), frames, frames)
      ensures resamplerState == r.state
      ensures r.framesGenerated <= frames && |r.output| == r.framesGenerated * 4 * ChannelCount
      ensures resampledAudioBuffer[..|r.output|] == r.output
    {
      r := ProcessCall(converter, resamplerState, buffer[..frames * 4 * ChannelCount], frames, frames);
      resamplerState := r.state;
      StoreBytes(resampledAudioBuffer, 0, r.output);
      OverlayFront(old(resampledAudioBuffer[..]), r.output);
    }

    /** The handler's `while` loop: encode whole blocks until less than one
        block of PCM is left. */
    method DrainAudio()
      requires Valid()
      modifies encoder`priv, audioData, sbcAudioData, sbcAudioData.backing, sbcPreBuffer, sbcPostBuffer
      ensures Valid()
      ensures var d := Drain(encoder, old(encoder.priv), old(audioData.Contents()));
              audioData.Contents() == d.rest && encoder.priv == d.priv &&
              sbcAudioData.Contents() == Window(old(sbcAudioData.Contents()) + d.frames, sbcAudioData.Capacity())
    {
      ghost var target := Drain(encoder, encoder.priv, audioData.Contents());
      ghost var s0 := sbcAudioData.Contents();
      ghost var kept: seq<byte> := [];
      WindowMore(s0, [], [], sbcAudioData.Capacity());
      while audioData.CurrentLength() >= encoder.codeSize
        invariant Valid()
        invariant DrainedSoFar(target, kept, Drain(encoder, encoder.priv, audioData.Contents()))
        invariant sbcAudioData.Contents() == Window(s0 + kept, sbcAudioData.Capacity())
        decreases audioData.CurrentLength()
      {
        ghost var cur, p := audioData.Contents(), encoder.priv;
        ghost var r := EncodeCall(encoder.lib, encoder.sbc, p, cur[..encoder.codeSize], encoder.codeSize);
        DrainLoopStep(encoder, p, cur, target, kept);
        WindowMore(s0, kept, Kept(r), sbcAudioData.Capacity());
        EncodeBlock();
        kept := kept + Kept(r);
      }
      ghost var rest := audioData.Contents();
      DrainDone(encoder, encoder.priv, rest);
      assert kept + [] == kept;
      assert kept == target.frames;
    }

    /** One pass of the drain loop: the oldest block moves to the pre-buffer,
        is encoded into the post-buffer, and a positive-length result is
        appended to the encoded ring. */
    method EncodeBlock()
      requires Valid() && audioData.CurrentLength() >= encoder.codeSize
      modifies encoder`priv, audioData, sbcAudioData, sbcAudioData.backing, sbcPreBuffer, sbcPostBuffer
      ensures Valid()
      ensures audioData.CurrentLength() < old(audioData.CurrentLength())
      ensures var cur, c := old(audioData.Contents()), encoder.codeSize;
              var r := EncodeCall(encoder.lib, encoder.sbc, old(encoder.priv), cur[..c], c);
              audioData.Contents() == cur[c..] && encoder.priv == r.priv &&
              sbcAudioData.Contents() == Window(old(sbcAudioData.Contents()) + Kept(r), sbcAudioData.Capacity())
    {
      ghost var cur := audioData.Contents();
      audioData.CopyTo(sbcPreBuffer, encoder.codeSize);
      OverlayFront(old(sbcPreBuffer[..]), cur[..encoder.codeSize]);
      assert sbcPreBuffer[..] == cur[..encoder.codeSize] + Zeros(0);
      ghost var post := sbcPostBuffer[..];
      var _, length := encoder.Encode(sbcPreBuffer, 0, sbcPostBuffer, 0, encoder.codeSize);
      if length > 0 {
        ghost var r := EncodeCall(encoder.lib, encoder.sbc, old(encoder.priv), cur[..encoder.codeSize], encoder.codeSize);
        OverlayFront(post, r.output);
        sbcAudioData.CopyFrom(sbcPostBuffer, length);
      } else {
        assert old(sbcAudioData.Contents()) + [] == old(sbcAudioData.Contents());
      }
    }
  }

  lemma MulMonotone(a: int, b: int, f: nat)
    requires a <= b
    ensures a * f <= b * f
  {
  }
}
