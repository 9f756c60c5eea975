/** `CaptureWorker`: the older Bluetooth path. The capture callback appends
    raw float samples to an 80000-byte ring; the playback loop takes two SBC
    frames' worth of samples at a time, converts and encodes them behind a
    fixed feature/volume header, and seals a 335-byte report with a counter,
    a CRC-32 and the device id. */
module Capture {
  import opened Bytes
  import opened Buffers
  import opened Sbc
  import opened AudioStream

  const Frames := 2
  const Protocol: byte := 0x15
  const BtOutputReportLength := 334
  const ModeType: byte := 0xC4
  const TransactionType: byte := 0xA2
  const FeaturesSwitch: byte := 0xF3
  const FlashOn: byte := 0x00
  const FlashOff: byte := 0x00
  const VolLeft: byte := 0x48
  const VolRight: byte := 0x48
  const VolMic: byte := 0x00
  const VolSpeaker: byte := 0x90
  /** The capture ring's capacity. */
  const RingSize := 80000
  /** The report buffer: the report plus the trailing device id. */
  const BufferSize := BtOutputReportLength + 1
  /** Where the encoded frames start. */
  const IndexBuffer := 81
  /** The first byte of the CRC, and the number of bytes it covers. */
  const CrcAt := BufferSize - 5
  /** The byte the CRC is seeded with ahead of the report. */
  const BtCrcHead: byte := 0xA2

  /** Bytes 0 to 25 of every report: protocol and feature flags, rumble,
      lightbar colour, flash timing, eight empty bytes and the volumes. */
  function StatusHeader(weak: byte, strong: byte, red: byte, green: byte, blue: byte): (h: seq<byte>)
    ensures |h| == 26
  {
    FlagBytes() + LightBytes(weak, strong, red, green, blue) + Zeros(8) + VolumeBytes()
  }

  /** Bytes 0 to 5. */
  function FlagBytes(): seq<byte> {
    [Protocol, ModeType, TransactionType, FeaturesSwitch, 0x04, 0x00]
  }

  /** Bytes 6 to 12. */
  function LightBytes(weak: byte, strong: byte, red: byte, green: byte, blue: byte): seq<byte> {
    [weak, strong, red, green, blue, FlashOn, FlashOff]
  }

  /** Bytes 21 to 25. */
  function VolumeBytes(): seq<byte> {
    [VolLeft, VolRight, VolMic, VolSpeaker, 0x85]
  }

  /** The report buffer after one iteration, built over its previous
      contents `prev`: the frames at 81, the status header at 0, the counter
      and 0x24 at 78, then the CRC of `0xA2` and the first 330 bytes, and the
      id. */
  function BtReport(prev: seq<byte>, header: seq<byte>, counter: uint16, payload: seq<byte>,
                    crc32: seq<byte> -> uint32, id: byte): seq<byte>
    requires |prev| == BufferSize && |header| == 26 && IndexBuffer + |payload| <= CrcAt
  {
    var body := Overlay(Overlay(Overlay(prev, IndexBuffer, payload), 0, header), 78, Le16(counter) + [0x24]);
    Overlay(body, CrcAt, Le32(crc32([BtCrcHead] + body[..CrcAt])) + [id])
  }

  /** Where each field of the report lies, and that every byte the loop never
      writes keeps its previous value. */
  lemma BtReportFields(prev: seq<byte>, header: seq<byte>, counter: uint16, payload: seq<byte>,
                       crc32: seq<byte> -> uint32, id: byte)
    requires |prev| == BufferSize && |header| == 26 && IndexBuffer + |payload| <= CrcAt
    ensures var r := BtReport(prev, header, counter, payload, crc32, id);
            |r| == BufferSize && r[..26] == header && r[26..78] == prev[26..78] &&
            ReadLe16(r, 78) == counter && r[80] == 0x24 &&
            r[IndexBuffer..IndexBuffer + |payload|] == payload &&
            r[IndexBuffer + |payload|..CrcAt] == prev[IndexBuffer + |payload|..CrcAt] &&
            ReadLe32(r, CrcAt) == crc32([BtCrcHead] + r[..CrcAt]) && r[BufferSize - 1] == id
  {
    var p1 := Overlay(prev, IndexBuffer, payload);
    var p2 := Overlay(p1, 0, header);
    var body := Overlay(p2, 78, Le16(counter) + [0x24]);
    var crc := crc32([BtCrcHead] + body[..CrcAt]);
    var r := Overlay(body, CrcAt, Le32(crc) + [id]);
    OverlayAt(prev, IndexBuffer, payload);
    OverlayAt(p1, 0, header);
    OverlayAt(p2, 78, Le16(counter) + [0x24]);
    OverlayAt(body, CrcAt, Le32(crc) + [id]);
    Le16RoundTrip(counter);
    Le32RoundTrip(crc);
    assert r[..CrcAt] == body[..CrcAt];
    assert forall i :: 0 <= i < 26 ==> r[..26][i] == header[i];
    assert forall i :: 0 <= i < 52 ==> r[26..78][i] == prev[26..78][i];
    assert forall i :: 0 <= i < |payload| ==> r[IndexBuffer..IndexBuffer + |payload|][i] == payload[i];
    assert forall i :: IndexBuffer + |payload| <= i < CrcAt ==> r[i] == prev[i];
    assert r[IndexBuffer + |payload|..CrcAt] == prev[IndexBuffer + |payload|..CrcAt];
    assert r[CrcAt..CrcAt + 4] == Le32(crc);
  }

  /** The encoder's output of a run of calls, back to back, and its memory
      afterwards. */
  datatype Encoded = Encoded(payload: seq<byte>, priv: int)

  /** `k` encode calls: call `i` reads the `i`-th block of `codeSize` bytes
      of `pcm`, and its output lands right after the previous call's. */
  function EncodeFrames(e: SbcEncoder, priv: int, pcm: seq<byte>, room: nat, k: nat): Encoded
    requires k * e.codeSize <= |pcm|
    decreases k
  {
    if k == 0 then Encoded([], priv)
    else
      MulMonotone(k - 1, k, e.codeSize);
      var prev := EncodeFrames(e, priv, pcm, room, k - 1);
      var r := EncodeCall(e.lib, e.sbc, prev.priv, pcm[(k - 1) * e.codeSize..k * e.codeSize], room);
      Encoded(prev.payload + r.output, r.priv)
  }

  lemma EncodeFramesStep(e: SbcEncoder, priv: int, pcm: seq<byte>, room: nat, k: nat)
    requires (k + 1) * e.codeSize <= |pcm|
    ensures k * e.codeSize + e.codeSize == (k + 1) * e.codeSize
    ensures var prev := EncodeFrames(e, priv, pcm, room, k);
            var r := EncodeCall(e.lib, e.sbc, prev.priv, pcm[k * e.codeSize..k * e.codeSize + e.codeSize], room);
            EncodeFrames(e, priv, pcm, room, k + 1) == Encoded(prev.payload + r.output, r.priv)
  {
  }

  /** Each call writes no more than a frame, so `k` calls write no more
      than `k` frames. */
  lemma {:induction false} EncodeFramesLength(e: SbcEncoder, priv: int, pcm: seq<byte>, room: nat, k: nat)
    requires e.Valid() && k * e.codeSize <= |pcm|
    ensures |EncodeFrames(e, priv, pcm, room, k).payload| <= k * e.frameSize
  {
    if k > 0 {
      MulMonotone(k - 1, k, e.codeSize);
      EncodeFramesLength(e, priv, pcm, room, k - 1);
      var prev := EncodeFrames(e, priv, pcm, room, k - 1);
      var input := pcm[(k - 1) * e.codeSize..k * e.codeSize];
      assert Writes(EncodeCall(e.lib, e.sbc, prev.priv, input, room), e.lib.frameLength(e.sbc), room);
      MulPred(k, e.frameSize);
    }
  }

  lemma MulPred(k: int, c: int)
    ensures (k - 1) * c + c == k * c
  {
  }

  /** The encode loop reads only the first `k` blocks of its input. */
  lemma {:induction false} EncodeFramesPrefix(e: SbcEncoder, priv: int, a: seq<byte>, b: seq<byte>, room: nat, k: nat)
    requires k * e.codeSize <= |a| && k * e.codeSize <= |b| && a[..k * e.codeSize] == b[..k * e.codeSize]
    ensures EncodeFrames(e, priv, a, room, k) == EncodeFrames(e, priv, b, room, k)
  {
    if k > 0 {
      MulMonotone(k - 1, k, e.codeSize);
      assert a[..(k - 1) * e.codeSize] == a[..k * e.codeSize][..(k - 1) * e.codeSize];
      assert b[..(k - 1) * e.codeSize] == b[..k * e.codeSize][..(k - 1) * e.codeSize];
      EncodeFramesPrefix(e, priv, a, b, room, k - 1);
      assert a[(k - 1) * e.codeSize..k * e.codeSize] == a[..k * e.codeSize][(k - 1) * e.codeSize..];
      assert b[(k - 1) * e.codeSize..k * e.codeSize] == b[..k * e.codeSize][(k - 1) * e.codeSize..];
    }
  }

  /** What one report-building pass does, from the ring, sample, short and
      report buffers, encoder memory and counter before (`0`) to after
      (`1`): the oldest `minData` ring bytes are consumed into the front of
      the sample buffer; the whole sample buffer is converted into the front
      of the short buffer; two blocks of those shorts are encoded back to
      back; the report is laid over the previous buffer contents; and the
      counter advances by `Frames`, wrapping at 16 bits. */
  ghost predicate PassBuilt(conv: Converter, e: SbcEncoder, minData: nat, header: seq<byte>,
                            crc32: seq<byte> -> uint32, id: byte,
                            ring0: seq<byte>, ring1: seq<byte>, audio0: seq<byte>, audio1: seq<byte>,
                            s0: seq<byte>, s1: seq<byte>, out0: seq<byte>, out1: seq<byte>,
                            priv0: int, priv1: int, c0: uint16, c1: int)
  {
    minData <= |ring0| && minData <= |audio0| &&
    var floats := ring0[..minData] + audio0[minData..];
    var pcm := ToShortCall(conv, floats);
    |pcm| <= |s0| && Frames * e.codeSize <= |pcm| &&
    var enc := EncodeFrames(e, priv0, pcm, minData / 2, Frames);
    |out0| == BufferSize && |header| == 26 && IndexBuffer + |enc.payload| <= CrcAt &&
    ring1 == ring0[minData..] && audio1 == floats && s1 == Overlay(s0, 0, pcm) && priv1 == enc.priv &&
    out1 == BtReport(out0, header, c0, enc.payload, crc32, id) && c1 == (c0 + Frames) % 0x1_0000
  }

  /** The three stages of a pass (take and convert the samples, encode,
      seal the report) make up the pass. */
  lemma PassComposes(conv: Converter, e: SbcEncoder, minData: nat, header: seq<byte>,
                     crc32: seq<byte> -> uint32, id: byte,
                     ring0: seq<byte>, ring1: seq<byte>, audio0: seq<byte>, audio1: seq<byte>,
                     s0: seq<byte>, s1: seq<byte>, out0: seq<byte>, out1: seq<byte>, out2: seq<byte>,
                     priv0: int, priv1: int, c0: uint16, c1: int)
    requires Converts(conv) && minData == e.codeSize * Frames * 2
    requires minData <= |ring0| && |audio0| == |s0| == 2 * minData && |out0| == BufferSize && |header| == 26
    requires ring1 == ring0[minData..] && audio1 == ring0[..minData] + audio0[minData..]
    requires s1 == Overlay(s0, 0, ToShortCall(conv, audio1))
    requires var enc := EncodeFrames(e, priv0, s1, minData / 2, Frames);
             priv1 == enc.priv && IndexBuffer + |enc.payload| <= CrcAt &&
             out1 == Overlay(out0, IndexBuffer, enc.payload)
    requires var body := Overlay(Overlay(out1, 0, header), 78, Le16(c0) + [0x24]);
             out2 == Overlay(body, CrcAt, Le32(crc32([BtCrcHead] + body[..CrcAt])) + [id]) &&
             c1 == (c0 + Frames) % 0x1_0000
    ensures PassBuilt(conv, e, minData, header, crc32, id, ring0, ring1, audio0, audio1, s0, s1,
                      out0, out2, priv0, priv1, c0, c1)
  {
    SampleSizes(e.codeSize);
    assert |audio1| == 2 * minData;
    var pcm := ToShortCall(conv, audio1);
    assert |pcm| == 2 * minData / 4 * 2 == minData;
    OverlayFront(s0, pcm);
    assert s1[..Frames * e.codeSize] == pcm[..Frames * e.codeSize];
    EncodeFramesPrefix(e, priv0, s1, pcm, minData / 2, Frames);
  }

  /** The buffer sizes of `Playback` for a given `CodeSize`. */
  lemma SampleSizes(codeSize: nat)
    ensures var minData := codeSize * Frames * 2;
            minData / 2 * 4 == 2 * minData && minData / 2 == Frames * codeSize && 2 * minData / 4 * 2 == minData
  {
    FloorDivUnique(codeSize * Frames * 2, 2, Frames * codeSize, 0);
    FloorDivUnique(2 * (codeSize * Frames * 2), 4, Frames * codeSize, 0);
  }

  class CaptureWorker {
    const encoder: SbcEncoder
    const converter: Converter
    /** `CRC32Calculator`'s seed-add-finalize over a byte sequence. */
    const crc32: seq<byte> -> uint32
    const id: byte
    /** `_buffer`: the captured float samples not yet played. */
    const buffer: CircularBuffer
    var capturing: bool
    var powerRumbleWeak: byte
    var powerRumbleStrong: byte
    var lightbarRed: byte
    var lightbarGreen: byte
    var lightbarBlue: byte

    ghost predicate Valid()
      reads this, buffer
    {
      buffer.Valid() && buffer.Capacity() == RingSize && encoder.Valid() && Converts(converter) &&
      0 < encoder.codeSize
    }

    /** The constructor, given the encoder it builds for the capture
        device's sample rate: 8 subbands, bitpool 51, joint stereo, SNR
        allocation, 16 blocks. */
    constructor (encoder: SbcEncoder, converter: Converter, crc32: seq<byte> -> uint32, id: byte, captureRate: int)
      requires encoder.Valid() && Converts(converter) && 0 < encoder.codeSize
      requires Some(encoder.sbc) == Configure(encoder.lib, captureRate, 8, 51, JointStereo, true, 16)
      ensures Valid() && !capturing && buffer.Contents() == [] && fresh(buffer) && fresh(buffer.backing)
      ensures this.encoder == encoder && this.converter == converter && this.crc32 == crc32 && this.id == id
      ensures powerRumbleWeak == 0 && powerRumbleStrong == 0
      ensures lightbarRed == 0xFF && lightbarGreen == 0 && lightbarBlue == 0xFF
    {
      this.encoder, this.converter, this.crc32, this.id := encoder, converter, crc32, id;
      buffer := new CircularBuffer(RingSize);
      capturing := false;
      powerRumbleWeak, powerRumbleStrong := 0, 0;
      lightbarRed, lightbarGreen, lightbarBlue := 0xFF, 0, 0xFF;
    }

    method Start()
      modifies this`capturing
      ensures capturing
    {
      capturing := true;
    }

    method StopPlayback()
      modifies this`capturing
      ensures !capturing
    {
      capturing := false;
    }

    /** The bytes 0 to 25 this worker writes. */
    function Header(): seq<byte>
      reads this
    {
      StatusHeader(powerRumbleWeak, powerRumbleStrong, lightbarRed, lightbarGreen, lightbarBlue)
    }

    /** `LoopbackCaptureOnDataAvailable`: append the packet unless stopped or
        empty. */
    method OnDataAvailable(data: array<byte>, bytesRecorded: int)
      requires Valid() && data != buffer.backing
      requires bytesRecorded <= data.Length && bytesRecorded <= RingSize
      modifies buffer, buffer.backing
      ensures Valid()
      ensures !capturing || bytesRecorded <= 0 ==> unchanged(buffer, buffer.backing)
      ensures capturing && bytesRecorded > 0 ==>
                buffer.Contents() == Window(old(buffer.Contents()) + old(data[..bytesRecorded]), RingSize) &&
                buffer.CurrentLength() == Min(old(buffer.CurrentLength()) + bytesRecorded, RingSize)
    {
      if !capturing || bytesRecorded <= 0 {
        return;
      }
      buffer.CopyFrom(data, bytesRecorded);
    }
  }

  datatype Outcome = Stopped | Waiting | Built

  /** `Playback`: its locals become fields, the code before its loop the
      constructor, and one pass of `while (_capturing)` the method
      `Iterate`. */
  class PlaybackLoop {
    const worker: CaptureWorker
    /** Two SBC blocks of 16-bit PCM, counted as 32-bit float bytes. */
    const minData: nat
    const audioData: array<byte>
    const s16AudioData: array<byte>
    const outputBuffer: array<byte>
    /** `lilEndianCounter`. */
    var counter: uint16

    ghost predicate Valid()
      reads this, worker, worker.buffer, outputBuffer
    {
      worker.Valid() &&
      minData == worker.encoder.codeSize * Frames * 2 &&
      audioData.Length == minData * 2 && s16AudioData.Length == minData * 2 &&
      outputBuffer.Length == BufferSize && outputBuffer[26..78] == Zeros(52) &&
      IndexBuffer + Frames * worker.encoder.frameSize <= CrcAt &&
      audioData != s16AudioData && audioData != outputBuffer && s16AudioData != outputBuffer &&
      audioData != worker.buffer.backing && s16AudioData != worker.buffer.backing && outputBuffer != worker.buffer.backing
    }

    /** The code before the loop: the sample and report buffers, zeroed, and
        the counter at zero. Two frames must fit between byte 81 and the CRC. */
    constructor (worker: CaptureWorker)
      requires worker.Valid() && IndexBuffer + Frames * worker.encoder.frameSize <= CrcAt
      ensures Valid() && this.worker == worker && counter == 0
      ensures minData == worker.encoder.codeSize * Frames * 2
      ensures outputBuffer[..] == Zeros(BufferSize)
      ensures fresh(audioData) && fresh(s16AudioData) && fresh(outputBuffer)
    {
      this.worker := worker;
      var minData := worker.encoder.codeSize * Frames * 2;
      this.minData := minData;
      audioData := new byte[minData * 2](_ => 0);
      s16AudioData := new byte[minData * 2](_ => 0);
      outputBuffer := new byte[BufferSize](_ => 0);
      counter := 0;
      new;
      assert outputBuffer[..] == Zeros(BufferSize);
      assert outputBuffer[26..78] == Zeros(52);
    }

    /** One pass of the loop: stop once capturing is off, wait while less
        than `minData` bytes are buffered, and otherwise build a report. */
    method Iterate() returns (outcome: Outcome)
      requires Valid()
      modifies this`counter, worker.buffer, audioData, s16AudioData, outputBuffer, worker.encoder`priv
      ensures Valid()
      ensures outcome == Stopped <==> !worker.capturing
      ensures outcome == Waiting <==> worker.capturing && old(worker.buffer.CurrentLength()) < minData
      ensures outcome != Built ==>
                unchanged(this, worker.buffer, audioData, s16AudioData, outputBuffer) &&
                worker.encoder.priv == old(worker.encoder.priv)
      ensures outcome == Built ==>
                PassBuilt(worker.converter, worker.encoder, minData, worker.Header(), worker.crc32, worker.id,
                          old(worker.buffer.Contents()), worker.buffer.Contents(), old(audioData[..]), audioData[..],
                          old(s16AudioData[..]), s16AudioData[..], old(outputBuffer[..]), outputBuffer[..],
                          old(worker.encoder.priv), worker.encoder.priv, old(counter), counter)
    {
      if !worker.capturing {
        return Stopped;
      }
      if worker.buffer.CurrentLength() < minData {
        return Waiting;
      }
      BuildReport();
      outcome := Built;
    }

    /** The body of the loop once enough samples are buffered. */
    method BuildReport()
      requires Valid() && worker.buffer.CurrentLength() >= minData
      modifies this`counter, worker.buffer, audioData, s16AudioData, outputBuffer, worker.encoder`priv
      ensures Valid()
      ensures PassBuilt(worker.converter, worker.encoder, minData, worker.Header(), worker.crc32, worker.id,
                        old(worker.buffer.Contents()), worker.buffer.Contents(), old(audioData[..]), audioData[..],
                        old(s16AudioData[..]), s16AudioData[..], old(outputBuffer[..]), outputBuffer[..],
                        old(worker.encoder.priv), worker.encoder.priv, old(counter), counter)
    {
      ghost var ring0, audio0, s0 := worker.buffer.Contents(), audioData[..], s16AudioData[..];
      ghost var out0, priv0, c0 := outputBuffer[..], worker.encoder.priv, counter;
      TakeSamples();
      ConvertSamples();
      ghost var s1 := s16AudioData[..];
      EncodeAll();
      ghost var out1 := outputBuffer[..];
      SealReport();
      PassComposes(worker.converter, worker.encoder, minData, worker.Header(), worker.crc32, worker.id,
                   ring0, worker.buffer.Contents(), audio0, audioData[..], s0, s1,
                   out0, out1, outputBuffer[..], priv0, worker.encoder.priv, c0, counter);
    }

    /** `_buffer.CopyTo(audioData, minData)`: no zero fill, as at least
        `minData` bytes are buffered. */
    method TakeSamples()
      requires Valid() && worker.buffer.CurrentLength() >= minData
      modifies worker.buffer, audioData
      ensures Valid()
      ensures worker.buffer.Contents() == old(worker.buffer.Contents())[minData..]
      ensures audioData[..] == old(worker.buffer.Contents())[..minData] + old(audioData[minData..])
    {
      ghost var a0, data := audioData[..], worker.buffer.Contents();
      worker.buffer.CopyTo(audioData, minData);
      assert data[..minData] + Zeros(0) == data[..minData];
      OverlayFront(a0, data[..minData]);
    }

    /** `src_float_to_short_array(audioData, s16AudioData, minData / 2)`:
        `minData / 2` floats are all of `audioData`, the fresh bytes and the
        previous pass's second half. */
    method ConvertSamples()
      requires Valid()
      modifies s16AudioData
      ensures Valid()
      ensures s16AudioData[..] == Overlay(old(s16AudioData[..]), 0, ToShortCall(worker.converter, audioData[..]))
    {
      SampleSizes(worker.encoder.codeSize);
      FloatToShortArray(worker.converter, audioData, s16AudioData, minData / 2);
      assert audioData[..minData / 2 * 4] == audioData[..];
    }

    /** The `fixed` encode loop: `Frames` calls, the source advancing by
        `CodeSize` and the destination by each call's `encoded`, starting
        at byte 81, with `minData / 2` as the room offered. */
    method EncodeAll()
      requires Valid()
      modifies outputBuffer, worker.encoder`priv
      ensures Valid()
      ensures var enc := EncodeFrames(worker.encoder, old(worker.encoder.priv), s16AudioData[..], minData / 2, Frames);
              worker.encoder.priv == enc.priv && IndexBuffer + |enc.payload| <= CrcAt &&
              outputBuffer[..] == Overlay(old(outputBuffer[..]), IndexBuffer, enc.payload)
    {
      var e := worker.encoder;
      ghost var pcm, out0, priv0 := s16AudioData[..], outputBuffer[..], e.priv;
      var source, dest := 0, IndexBuffer;
      assert out0 == Overlay(out0, IndexBuffer, []);
      for i := 0 to Frames
        invariant source == i * e.codeSize && s16AudioData[..] == pcm
        invariant e.priv == EncodeFrames(e, priv0, pcm, minData / 2, i).priv
        invariant dest == IndexBuffer + |EncodeFrames(e, priv0, pcm, minData / 2, i).payload|
        invariant |EncodeFrames(e, priv0, pcm, minData / 2, i).payload| <= i * e.frameSize
        invariant outputBuffer[..] == Overlay(out0, IndexBuffer, EncodeFrames(e, priv0, pcm, minData / 2, i).payload)
      {
        ghost var prev := EncodeFrames(e, priv0, pcm, minData / 2, i);
        EncodeFramesStep(e, priv0, pcm, minData / 2, i);
        EncodeFramesLength(e, priv0, pcm, minData / 2, i + 1);
        MulMonotone(i, Frames - 1, e.frameSize);
        var len, encoded := e.Encode(s16AudioData, source, outputBuffer, dest, minData / 2);
        ghost var r := EncodeCall(e.lib, e.sbc, prev.priv, pcm[i * e.codeSize..i * e.codeSize + e.codeSize], minData / 2);
        OverlayAdjacent(out0, IndexBuffer, prev.payload, r.output);
        source := source + e.codeSize;
        dest := dest + encoded;
      }
      assert outputBuffer[26..78] == out0[26..78];
    }

    /** The header, the counter, the CRC and the id; then the counter
        advances. */
    method SealReport()
      requires Valid() && outputBuffer.Length == BufferSize
      modifies this`counter, outputBuffer
      ensures Valid()
      ensures var body := Overlay(Overlay(old(outputBuffer[..]), 0, worker.Header()), 78, Le16(old(counter)) + [0x24]);
              outputBuffer[..] == Overlay(body, CrcAt, Le32(worker.crc32([BtCrcHead] + body[..CrcAt])) + [worker.id])
      ensures counter == (old(counter) + Frames) % 0x1_0000
    {
      WriteHeader();
      WriteCounter();
      var crc := worker.crc32([BtCrcHead] + outputBuffer[..CrcAt]);
      WriteTrailer(crc);
      counter := (counter + Frames) % 0x1_0000;
    }

    /** Bytes 0 to 25, written field by field. */
    method WriteHeader()
      requires outputBuffer.Length == BufferSize
      modifies outputBuffer
      ensures outputBuffer[..] == Overlay(old(outputBuffer[..]), 0, worker.Header())
    {
      ghost var s0 := outputBuffer[..];
      ghost var f, l := FlagBytes(), LightBytes(worker.powerRumbleWeak, worker.powerRumbleStrong,
                                                worker.lightbarRed, worker.lightbarGreen, worker.lightbarBlue);
      WriteFlags();
      WriteLights();
      OverlayAdjacent(s0, 0, f, l);
      WriteEmpty();
      OverlayAdjacent(s0, 0, f + l, Zeros(8));
      WriteVolumes();
      OverlayAdjacent(s0, 0, f + l + Zeros(8), VolumeBytes());
    }

    method WriteFlags()
      requires outputBuffer.Length == BufferSize
      modifies outputBuffer
      ensures outputBuffer[..] == Overlay(old(outputBuffer[..]), 0, FlagBytes())
    {
      outputBuffer[0] := Protocol;
      outputBuffer[1] := ModeType;
      outputBuffer[2] := TransactionType;
      outputBuffer[3] := FeaturesSwitch;
      outputBuffer[4] := 0x04;
      outputBuffer[5] := 0x00;
      OverlayAt(old(outputBuffer[..]), 0, FlagBytes());
      assert forall i :: 0 <= i < BufferSize ==> outputBuffer[i] == Overlay(old(outputBuffer[..]), 0, FlagBytes())[i];
    }

    method WriteLights()
      requires outputBuffer.Length == BufferSize
      modifies outputBuffer
      ensures outputBuffer[..] == Overlay(old(outputBuffer[..]), 6, LightBytes(worker.powerRumbleWeak, worker.powerRumbleStrong,
                                          worker.lightbarRed, worker.lightbarGreen, worker.lightbarBlue))
    {
      ghost var l := LightBytes(worker.powerRumbleWeak, worker.powerRumbleStrong,
                                worker.lightbarRed, worker.lightbarGreen, worker.lightbarBlue);
      outputBuffer[6] := worker.powerRumbleWeak;
      outputBuffer[7] := worker.powerRumbleStrong;
      outputBuffer[8] := worker.lightbarRed;
      outputBuffer[9] := worker.lightbarGreen;
      outputBuffer[10] := worker.lightbarBlue;
      outputBuffer[11] := FlashOn;
      outputBuffer[12] := FlashOff;
      OverlayAt(old(outputBuffer[..]), 6, l);
      assert forall i :: 0 <= i < BufferSize ==> outputBuffer[i] == Overlay(old(outputBuffer[..]), 6, l)[i];
    }

    /** Bytes 13 to 20, the empty frames. */
    method WriteEmpty()
      requires outputBuffer.Length == BufferSize
      modifies outputBuffer
      ensures outputBuffer[..] == Overlay(old(outputBuffer[..]), 13, Zeros(8))
    {
      outputBuffer[13] := 0x00; outputBuffer[14] := 0x00; outputBuffer[15] := 0x00; outputBuffer[16] := 0x00;
      outputBuffer[17] := 0x00; outputBuffer[18] := 0x00; outputBuffer[19] := 0x00; outputBuffer[20] := 0x00;
      OverlayAt(old(outputBuffer[..]), 13, Zeros(8));
      assert forall i :: 0 <= i < BufferSize ==> outputBuffer[i] == Overlay(old(outputBuffer[..]), 13, Zeros(8))[i];
    }

    method WriteVolumes()
      requires outputBuffer.Length == BufferSize
      modifies outputBuffer
      ensures outputBuffer[..] == Overlay(old(outputBuffer[..]), 21, VolumeBytes())
    {
      outputBuffer[21] := VolLeft;
      outputBuffer[22] := VolRight;
      outputBuffer[23] := VolMic;
      outputBuffer[24] := VolSpeaker;
      outputBuffer[25] := 0x85;
      OverlayAt(old(outputBuffer[..]), 21, VolumeBytes());
      assert forall i :: 0 <= i < BufferSize ==> outputBuffer[i] == Overlay(old(outputBuffer[..]), 21, VolumeBytes())[i];
    }

    /** Bytes 78 to 80: the counter, low byte first, and the headset flag. */
    method WriteCounter()
      requires outputBuffer.Length == BufferSize
      modifies outputBuffer
      ensures outputBuffer[..] == Overlay(old(outputBuffer[..]), 78, Le16(counter) + [0x24])
    {
      outputBuffer[78] := counter % 0x100;
      outputBuffer[79] := (counter / 0x100) % 0x100;
      outputBuffer[80] := 0x24;
      OverlayAt(old(outputBuffer[..]), 78, Le16(counter) + [0x24]);
      assert forall i :: 0 <= i < BufferSize ==>
        outputBuffer[i] == Overlay(old(outputBuffer[..]), 78, Le16(counter) + [0x24])[i];
    }

    /** `outputBuffer[^5..^2]`: the CRC, low byte first; `outputBuffer[^1]`: the id. */
    method WriteTrailer(crc: uint32)
      requires outputBuffer.Length == BufferSize
      modifies outputBuffer
      ensures outputBuffer[..] == Overlay(old(outputBuffer[..]), CrcAt, Le32(crc) + [worker.id])
    {
      outputBuffer[CrcAt] := crc % 0x100;
      outputBuffer[CrcAt + 1] := (crc / 0x100) % 0x100;
      outputBuffer[CrcAt + 2] := (crc / 0x1_0000) % 0x100;
      outputBuffer[CrcAt + 3] := (crc / 0x100_0000) % 0x100;
      outputBuffer[CrcAt + 4] := worker.id;
      OverlayAt(old(outputBuffer[..]), CrcAt, Le32(crc) + [worker.id]);
      assert forall i :: 0 <= i < BufferSize ==>
        outputBuffer[i] == Overlay(old(outputBuffer[..]), CrcAt, Le32(crc) + [worker.id])[i];
    }
  }
}
