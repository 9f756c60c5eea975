/** `NewCaptureWorker`: the HID output-report writer. While at least two SBC
    frames are buffered it packs two or four of them into an output report
    carrying a rolling frame counter and a CRC-32 trailer, and writes the
    report to the controller. The CRC routine and the device stream are
    parameters: the model records each report it would write. */
module NewCapture {
  import opened Bytes
  import opened Buffers
  import opened AudioStream

  /** `_outputBuffer.Length`. */
  const OutputBufferSize := 640
  /** The Bluetooth HID transaction byte the CRC covers but the buffer does not hold. */
  const BtHeader: byte := 0xA2
  /** The largest SBC frame a four-frame report has room for. */
  const MaxFrameSize := 113

  /** How many frames go in one report, its protocol byte and its length. */
  datatype Batch = Batch(frames: nat, protocol: byte, size: nat)

  /** The batch choice for `frameCount` buffered frames. */
  function ChooseBatch(frameCount: int): (b: Batch)
    ensures b in {Batch(4, 0x17, 462), Batch(2, 0x14, 270)}
    ensures b.frames == 4 <==> frameCount >= 4
    ensures frameCount >= 2 ==> b.frames <= frameCount
  {
    if frameCount >= 4 then Batch(4, 0x17, 462) else Batch(2, 0x14, 270)
  }

  /** The frames of either batch fit between the six header bytes and the
      four CRC bytes of its report, and the report fits the buffer. */
  lemma BatchFits(frameCount: int, frameSize: nat)
    requires frameSize <= MaxFrameSize
    ensures var b := ChooseBatch(frameCount);
            6 + b.frames * frameSize <= b.size - 4 && b.size <= OutputBufferSize
  {
  }

  /** The six header bytes: protocol, two fixed bytes, the counter low byte
      first, and the headset-mode byte. */
  function Header(protocol: byte, counter: uint16): seq<byte> {
    [protocol, 0x40, 0xA2] + Le16(counter) + [0x24]
  }

  /** The checksummed part of a report: header, payload, zero padding. */
  function ReportBody(b: Batch, counter: uint16, payload: seq<byte>): (body: seq<byte>)
    requires 6 + |payload| <= b.size - 4
    ensures |body| == b.size - 4
  {
    Header(b.protocol, counter) + payload + Zeros(b.size - 10 - |payload|)
  }

  /** One output report as written to the device: the body, then the CRC-32
      of the transaction byte followed by the body, low byte first. */
  function Report(b: Batch, counter: uint16, payload: seq<byte>, crc32: seq<byte> -> uint32): seq<byte>
    requires 6 + |payload| <= b.size - 4
  {
    var body := ReportBody(b, counter, payload);
    body + Le32(crc32([BtHeader] + body))
  }

  /** What a receiver finds in a report: every field at its place, zeros
      wherever nothing was written, and a CRC that checks. */
  lemma ReportFields(b: Batch, counter: uint16, payload: seq<byte>, crc32: seq<byte> -> uint32)
    requires 6 + |payload| <= b.size - 4
    ensures var r := Report(b, counter, payload, crc32);
            |r| == b.size &&
            r[0] == b.protocol && r[1] == 0x40 && r[2] == 0xA2 && r[5] == 0x24 &&
            ReadLe16(r, 3) == counter &&
            r[6..6 + |payload|] == payload &&
            (forall i :: 6 + |payload| <= i < b.size - 4 ==> r[i] == 0) &&
            ReadLe32(r, b.size - 4) == crc32([BtHeader] + r[..b.size - 4])
  {
    var body := ReportBody(b, counter, payload);
    var r := Report(b, counter, payload, crc32);
    var crc := crc32([BtHeader] + body);
    Le16RoundTrip(counter);
    Le32RoundTrip(crc);
    assert r[..b.size - 4] == body;
    assert r[b.size - 4..] == Le32(crc);
    assert body[3..5] == Le16(counter);
    assert r[6..6 + |payload|] == body[6..6 + |payload|] == payload;
    assert forall i :: 6 + |payload| <= i < b.size - 4 ==> r[i] == body[i] == Zeros(b.size - 10 - |payload|)[i - 6 - |payload|];
  }

  /** The frame counter after a batch: `lilEndianCounter += (ushort) frames`. */
  function Advance(counter: uint16, frames: nat): uint16 {
    (counter + frames) % 0x1_0000
  }

  /** What the inner loop writes from the buffered frames `data`: its
      reports in order, the counter afterwards, and the bytes left. */
  datatype Planned = Planned(reports: seq<seq<byte>>, counter: uint16, rest: seq<byte>)

  /** The inner `while (CurrentFrameCount >= 2)` loop on the buffered bytes
      `data`: each pass takes the oldest `frames * frameSize` bytes. */
  function Plan(frameSize: nat, counter: uint16, data: seq<byte>, crc32: seq<byte> -> uint32): Planned
    requires 0 < frameSize <= MaxFrameSize
    decreases |data|
  {
    var frameCount := |data| / frameSize;
    if frameCount < 2 then Planned([], counter, data)
    else
      var b := ChooseBatch(frameCount);
      BatchFits(frameCount, frameSize);
      FramesFit(|data|, frameSize, b.frames);
      var n := b.frames * frameSize;
      var later := Plan(frameSize, Advance(counter, b.frames), data[n..], crc32);
      Planned([Report(b, counter, data[..n], crc32)] + later.reports, later.counter, later.rest)
  }

  lemma FramesFit(len: nat, frameSize: nat, k: nat)
    requires 0 < frameSize && 0 < k <= len / frameSize
    ensures 0 < k * frameSize <= len
  {
    MulMonotone(k, len / frameSize, frameSize);
  }

  /** The frames count a report's protocol byte announces. */
  function FramesOf(protocol: int): nat {
    if protocol == 0x17 then 4 else 2
  }

  /** The inner loop leaves less than two frames behind, and every report it
      writes is a 462- or 270-byte report whose counter is the previous
      report's counter advanced by the previous report's frame count; the
      first carries the starting counter. */
  lemma {:induction false} PlanShape(frameSize: nat, counter: uint16, data: seq<byte>, crc32: seq<byte> -> uint32)
    requires 0 < frameSize <= MaxFrameSize
    ensures var p := Plan(frameSize, counter, data, crc32);
            |p.rest| < 2 * frameSize &&
            (forall i :: 0 <= i < |p.reports| ==> |p.reports[i]| in {462, 270}) &&
            (|p.reports| > 0 ==> ReadLe16(p.reports[0], 3) == counter) &&
            (forall i :: 0 < i < |p.reports| ==>
               ReadLe16(p.reports[i], 3) == Advance(ReadLe16(p.reports[i - 1], 3), FramesOf(p.reports[i - 1][0])))
    decreases |data|
  {
    var frameCount := |data| / frameSize;
    var p := Plan(frameSize, counter, data, crc32);
    if frameCount < 2 {
      FloorDivUnique(|data|, frameSize, |data| / frameSize, |data| % frameSize);
      MulMonotone(|data| / frameSize + 1, 2, frameSize);
    } else {
      var b := ChooseBatch(frameCount);
      BatchFits(frameCount, frameSize);
      FramesFit(|data|, frameSize, b.frames);
      var n := b.frames * frameSize;
      var next := Advance(counter, b.frames);
      PlanShape(frameSize, next, data[n..], crc32);
      var later := Plan(frameSize, next, data[n..], crc32);
      ReportFields(b, counter, data[..n], crc32);
      assert p.reports == [Report(b, counter, data[..n], crc32)] + later.reports;
      if |later.reports| > 0 {
        assert ReadLe16(p.reports[1], 3) == next;
      }
      forall i | 1 < i < |p.reports|
        ensures ReadLe16(p.reports[i], 3) == Advance(ReadLe16(p.reports[i - 1], 3), FramesOf(p.reports[i - 1][0]))
      {
        assert p.reports[i] == later.reports[i - 1] && p.reports[i - 1] == later.reports[i - 2];
      }
    }
  }

  /** The frames a report carries, read back from its protocol byte. */
  function PayloadOf(r: seq<byte>, frameSize: nat): seq<byte> {
    var len := if 0 < |r| && r[0] == 0x17 then 4 * frameSize else 2 * frameSize;
    if 6 + len <= |r| then r[6..6 + len] else []
  }

  /** The frames of a run of reports, laid end to end. */
  function PayloadsOf(reports: seq<seq<byte>>, frameSize: nat): seq<byte> {
    if reports == [] then [] else PayloadOf(reports[0], frameSize) + PayloadsOf(reports[1..], frameSize)
  }

  /** A report of either batch gives back exactly the frames it was built from. */
  lemma PayloadOfReport(b: Batch, counter: uint16, payload: seq<byte>, frameSize: nat, crc32: seq<byte> -> uint32)
    requires b in {Batch(4, 0x17, 462), Batch(2, 0x14, 270)}
    requires |payload| == b.frames * frameSize && 6 + |payload| <= b.size - 4
    ensures PayloadOf(Report(b, counter, payload, crc32), frameSize) == payload
  {
    ReportFields(b, counter, payload, crc32);
  }

  lemma PayloadsCons(r: seq<byte>, rs: seq<seq<byte>>, frameSize: nat)
    ensures PayloadsOf([r] + rs, frameSize) == PayloadOf(r, frameSize) + PayloadsOf(rs, frameSize)
  {
    assert ([r] + rs)[1..] == rs;
  }

  /** The inner loop sends the buffered frames in order: the reports'
      payloads followed by what is left are the bytes it started from. */
  lemma {:induction false} PlanPayloads(frameSize: nat, counter: uint16, data: seq<byte>, crc32: seq<byte> -> uint32)
    requires 0 < frameSize <= MaxFrameSize
    ensures var p := Plan(frameSize, counter, data, crc32);
            PayloadsOf(p.reports, frameSize) + p.rest == data
    decreases |data|
  {
    var frameCount := |data| / frameSize;
    if frameCount >= 2 {
      var b := ChooseBatch(frameCount);
      BatchFits(frameCount, frameSize);
      FramesFit(|data|, frameSize, b.frames);
      var n := b.frames * frameSize;
      PlanPayloads(frameSize, Advance(counter, b.frames), data[n..], crc32);
      PlanPayloadsStep(frameSize, counter, data, crc32, b, n);
    }
  }

  /** One pass of `PlanPayloads`: the first report's frames, then the rest of
      the loop's payloads and leftover, rebuild the input. */
  lemma PlanPayloadsStep(frameSize: nat, counter: uint16, data: seq<byte>, crc32: seq<byte> -> uint32, b: Batch, n: nat)
    requires 0 < frameSize <= MaxFrameSize && |data| / frameSize >= 2
    requires b == ChooseBatch(|data| / frameSize) && n == b.frames * frameSize && n <= |data| && 6 + n <= b.size - 4
    requires var later := Plan(frameSize, Advance(counter, b.frames), data[n..], crc32);
             PayloadsOf(later.reports, frameSize) + later.rest == data[n..]
    ensures var p := Plan(frameSize, counter, data, crc32);
            PayloadsOf(p.reports, frameSize) + p.rest == data
  {
    var r := Report(b, counter, data[..n], crc32);
    var later := Plan(frameSize, Advance(counter, b.frames), data[n..], crc32);
    PayloadOfReport(b, counter, data[..n], frameSize, crc32);
    PayloadsCons(r, later.reports, frameSize);
    var p := Plan(frameSize, counter, data, crc32);
    assert p.reports == [r] + later.reports && p.rest == later.rest;
    ConcatAssoc(data[..n], PayloadsOf(later.reports, frameSize), later.rest);
    TakeDrop(data, n);
    calc {
      PayloadsOf(p.reports, frameSize) + p.rest;
      (data[..n] + PayloadsOf(later.reports, frameSize)) + later.rest;
      data[..n] + (PayloadsOf(later.reports, frameSize) + later.rest);
      data[..n] + data[n..];
      data;
    }
  }

  class NewCaptureWorker {
    const stream: SbcAudioStream
    const outputBuffer: array<byte>
    /** `CRC32Calculator`'s seed-add-finalize over a byte sequence. */
    const crc32: seq<byte> -> uint32
    /** `lilEndianCounter`, the worker's rolling frame counter. */
    var counter: uint16
    /** Every report written to the device, in order. */
    var sent: seq<seq<byte>>

    ghost predicate Valid()
      reads this, stream, stream.audioData, stream.sbcAudioData
    {
      stream.Valid() && outputBuffer.Length == OutputBufferSize &&
      outputBuffer != stream.sbcAudioData.backing && stream.FrameSize() <= MaxFrameSize
    }

    /** The constructor and the start of `_worker`: a cleared buffer, the
        counter at zero, nothing written yet. */
    constructor (stream: SbcAudioStream, crc32: seq<byte> -> uint32)
      requires stream.Valid() && stream.FrameSize() <= MaxFrameSize
      ensures Valid() && this.stream == stream && this.crc32 == crc32
      ensures counter == 0 && sent == [] && fresh(outputBuffer)
    {
      this.stream, this.crc32 := stream, crc32;
      outputBuffer := new byte[OutputBufferSize](_ => 0);
      counter, sent := 0, [];
    }

    /** The inner loop of `_worker`: write reports while two or more frames
        are buffered. */
    method SendReports()
      requires Valid()
      modifies this, outputBuffer, stream.sbcAudioData
      ensures Valid() && stream.CurrentFrameCount() < 2
      ensures var p := Plan(stream.FrameSize(), old(counter), old(stream.sbcAudioData.Contents()), crc32);
              sent == old(sent) + p.reports && counter == p.counter && stream.sbcAudioData.Contents() == p.rest
    {
      ghost var target := Plan(stream.FrameSize(), counter, stream.sbcAudioData.Contents(), crc32);
      ghost var s0 := sent;
      assert s0 + [] == s0;
      while stream.CurrentFrameCount() >= 2
        invariant Valid()
        invariant PlannedSoFar(target, sent, s0, Plan(stream.FrameSize(), counter, stream.sbcAudioData.Contents(), crc32))
        decreases stream.sbcAudioData.CurrentLength()
      {
        ghost var data, c := stream.sbcAudioData.Contents(), counter;
        PlanLoopStep(stream.FrameSize(), c, data, crc32, target, sent, s0);
        SendReport();
      }
      ghost var rest := stream.sbcAudioData.Contents();
      PlanDone(stream.FrameSize(), counter, rest, crc32);
      assert sent + [] == sent;
    }

    /** One pass of the inner loop: pick the batch, clear the buffer, write
        the header and advance the counter, move the frames in, append the
        CRC and write the report. */
    method SendReport()
      requires Valid() && stream.CurrentFrameCount() >= 2
      modifies this, outputBuffer, stream.sbcAudioData
      ensures Valid()
      ensures stream.sbcAudioData.CurrentLength() < old(stream.sbcAudioData.CurrentLength())
      ensures var data := old(stream.sbcAudioData.Contents());
              var b := ChooseBatch(|data| / stream.FrameSize());
              var n := b.frames * stream.FrameSize();
              n <= |data| && 6 + n <= b.size - 4 &&
              sent == old(sent) + [Report(b, old(counter), data[..n], crc32)] &&
              outputBuffer[..] == Report(b, old(counter), data[..n], crc32) + Zeros(OutputBufferSize - b.size) &&
              counter == Advance(old(counter), b.frames) &&
              stream.sbcAudioData.Contents() == data[n..]
    {
      ghost var data := stream.sbcAudioData.Contents();
      ghost var c0, s0 := counter, sent;
      var frameSize := stream.FrameSize();
      var framesAvailable, protocol, size;
      if stream.CurrentFrameCount() >= 4 {
        framesAvailable, protocol, size := 4, 0x17, 462;
      } else {
        framesAvailable, protocol, size := 2, 0x14, 270;
      }
      ghost var b := Batch(framesAvailable, protocol, size);
      assert b == ChooseBatch(|data| / frameSize);
      BatchFits(|data| / frameSize, frameSize);
      FramesFit(|data|, frameSize, framesAvailable);
      ghost var payload := data[..framesAvailable * frameSize];
      StageReport(protocol, framesAvailable * frameSize);
      counter := Advance(counter, framesAvailable);
      var crc := crc32([BtHeader] + outputBuffer[..size - 4]);
      WriteTrailer(size, crc);
      ReportImage(b, c0, payload, crc32);
      ghost var r := Report(b, c0, payload, crc32);
      assert outputBuffer[..] == r + Zeros(OutputBufferSize - b.size);
      assert outputBuffer[..size] == r;
      sent := sent + [outputBuffer[..size]];
    }

    /** Clear the buffer, write the header with the current counter, and move
        `length` bytes of frames in behind it. */
    method StageReport(protocol: byte, length: nat)
      requires Valid() && 6 + length <= OutputBufferSize && length <= stream.sbcAudioData.CurrentLength()
      requires 0 < length
      modifies outputBuffer, stream.sbcAudioData
      ensures Valid()
      ensures stream.sbcAudioData.CurrentLength() < old(stream.sbcAudioData.CurrentLength())
      ensures outputBuffer[..] == Overlay(Overlay(Zeros(OutputBufferSize), 0, Header(protocol, counter)), 6,
                                          old(stream.sbcAudioData.Contents())[..length])
      ensures stream.sbcAudioData.Contents() == old(stream.sbcAudioData.Contents())[length..]
    {
      ArrayFillZero(outputBuffer, 0, OutputBufferSize);
      OverlayFront(old(outputBuffer[..]), Zeros(OutputBufferSize));
      WriteHeader(protocol);
      ghost var image := outputBuffer[..];
      ghost var data := stream.sbcAudioData.Contents();
      stream.sbcAudioData.CopyToOffset(outputBuffer, 6, length);
      assert outputBuffer[..] == Overlay(image, 6, data[..length] + Zeros(0));
      assert data[..length] + Zeros(0) == data[..length];
    }

    /** `_outputBuffer[0..5]`: protocol, 0x40, 0xA2, the counter low byte
        first, 0x24. */
    method WriteHeader(protocol: byte)
      requires outputBuffer.Length == OutputBufferSize
      modifies outputBuffer
      ensures outputBuffer[..] == Overlay(old(outputBuffer[..]), 0, Header(protocol, counter))
    {
      outputBuffer[0] := protocol;
      outputBuffer[1] := 0x40;
      outputBuffer[2] := 0xA2;
      outputBuffer[3] := counter % 0x100;
      outputBuffer[4] := (counter / 0x100) % 0x100;
      outputBuffer[5] := 0x24;
      OverlayAt(old(outputBuffer[..]), 0, Header(protocol, counter));
      assert forall i :: 0 <= i < OutputBufferSize ==>
        outputBuffer[i] == Overlay(old(outputBuffer[..]), 0, Header(protocol, counter))[i];
    }

    /** `_outputBuffer[size - 4..size - 1]`: the CRC, low byte first. */
    method WriteTrailer(size: nat, crc: uint32)
      requires 4 <= size <= outputBuffer.Length
      modifies outputBuffer
      ensures outputBuffer[..] == Overlay(old(outputBuffer[..]), size - 4, Le32(crc))
    {
      outputBuffer[size - 4] := crc % 0x100;
      outputBuffer[size - 3] := (crc / 0x100) % 0x100;
      outputBuffer[size - 2] := (crc / 0x1_0000) % 0x100;
      outputBuffer[size - 1] := (crc / 0x100_0000) % 0x100;
      OverlayAt(old(outputBuffer[..]), size - 4, Le32(crc));
      assert forall i :: 0 <= i < outputBuffer.Length ==>
        outputBuffer[i] == Overlay(old(outputBuffer[..]), size - 4, Le32(crc))[i];
    }
  }

  /** The loop invariant of the inner loop: the reports still to come, after
      those written so far, are the whole loop's reports. */
  predicate PlannedSoFar(target: Planned, sent: seq<seq<byte>>, s0: seq<seq<byte>>, p: Planned) {
    s0 + target.reports == sent + p.reports && target.counter == p.counter && target.rest == p.rest
  }

  lemma PlanLoopStep(frameSize: nat, counter: uint16, data: seq<byte>, crc32: seq<byte> -> uint32,
                     target: Planned, sent: seq<seq<byte>>, s0: seq<seq<byte>>)
    requires 0 < frameSize <= MaxFrameSize && |data| / frameSize >= 2
    requires PlannedSoFar(target, sent, s0, Plan(frameSize, counter, data, crc32))
    ensures var b := ChooseBatch(|data| / frameSize);
            var n := b.frames * frameSize;
            n <= |data| && 6 + n <= b.size - 4 &&
            PlannedSoFar(target, sent + [Report(b, counter, data[..n], crc32)], s0,
                         Plan(frameSize, Advance(counter, b.frames), data[n..], crc32))
  {
    var b := ChooseBatch(|data| / frameSize);
    BatchFits(|data| / frameSize, frameSize);
    FramesFit(|data|, frameSize, b.frames);
    var n := b.frames * frameSize;
    var r := Report(b, counter, data[..n], crc32);
    var later := Plan(frameSize, Advance(counter, b.frames), data[n..], crc32);
    assert Plan(frameSize, counter, data, crc32).reports == [r] + later.reports;
    assert sent + ([r] + later.reports) == sent + [r] + later.reports;
  }

  lemma PlanDone(frameSize: nat, counter: uint16, data: seq<byte>, crc32: seq<byte> -> uint32)
    requires 0 < frameSize <= MaxFrameSize && |data| / frameSize < 2
    ensures Plan(frameSize, counter, data, crc32) == Planned([], counter, data)
  {
  }

  /** The cleared buffer after the header and the frames: the report body,
      then zeros. */
  lemma BodyImage(b: Batch, counter: uint16, payload: seq<byte>)
    requires 6 + |payload| <= b.size - 4 && b.size <= OutputBufferSize
    ensures var image := Overlay(Overlay(Zeros(OutputBufferSize), 0, Header(b.protocol, counter)), 6, payload);
            image[..b.size - 4] == ReportBody(b, counter, payload) &&
            image[b.size - 4..] == Zeros(OutputBufferSize - b.size + 4)
  {
    var h := Header(b.protocol, counter);
    var image := Overlay(Overlay(Zeros(OutputBufferSize), 0, h), 6, payload);
    var body := ReportBody(b, counter, payload);
    OverlayAt(Zeros(OutputBufferSize), 0, h);
    OverlayAt(Overlay(Zeros(OutputBufferSize), 0, h), 6, payload);
    assert forall i :: 0 <= i < b.size - 4 ==> image[..b.size - 4][i] == body[i];
    assert forall i :: b.size - 4 <= i < OutputBufferSize ==> image[i] == 0;
    assert image[b.size - 4..] == Zeros(OutputBufferSize - b.size + 4);
  }

  /** The finished buffer: the report, then zeros. */
  lemma ReportImage(b: Batch, counter: uint16, payload: seq<byte>, crc32: seq<byte> -> uint32)
    requires 6 + |payload| <= b.size - 4 && b.size <= OutputBufferSize
    ensures var image := Overlay(Overlay(Zeros(OutputBufferSize), 0, Header(b.protocol, counter)), 6, payload);
            var crc := crc32([BtHeader] + image[..b.size - 4]);
            var full := Overlay(image, b.size - 4, Le32(crc));
            full == Report(b, counter, payload, crc32) + Zeros(OutputBufferSize - b.size) &&
            full[..b.size] == Report(b, counter, payload, crc32)
  {
    var image := Overlay(Overlay(Zeros(OutputBufferSize), 0, Header(b.protocol, counter)), 6, payload);
    BodyImage(b, counter, payload);
    var body := ReportBody(b, counter, payload);
    var crc := crc32([BtHeader] + image[..b.size - 4]);
    var full := Overlay(image, b.size - 4, Le32(crc));
    var r := Report(b, counter, payload, crc32);
    OverlayAt(image, b.size - 4, Le32(crc));
    assert image[..b.size - 4] == body;
    assert forall i :: 0 <= i < b.size - 4 ==> full[i] == image[..b.size - 4][i];
    assert forall i :: b.size <= i < OutputBufferSize ==> full[i] == image[b.size - 4..][i - b.size + 4];
    assert forall i :: 0 <= i < OutputBufferSize ==> full[i] == (r + Zeros(OutputBufferSize - b.size))[i];
  }
}
