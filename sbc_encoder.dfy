/** The SharpSBC encoder wrapper: the constructor maps user-facing settings onto
    libsbc's configuration codes, and `Encode` forwards one block to the native
    encoder. libsbc itself is a parameter (`Native`) whose contract is stated,
    not implemented. */
module Sbc {
  import opened Bytes

  // libsbc's sampling-frequency codes.
  const Freq16000: byte := 0x00
  const Freq32000: byte := 0x01
  const Freq44100: byte := 0x02
  const Freq48000: byte := 0x03

  // libsbc's block-count codes.
  const Blk4: byte := 0x00
  const Blk8: byte := 0x01
  const Blk12: byte := 0x02
  const Blk16: byte := 0x03

  // libsbc's channel-mode codes.
  const ModeMono: byte := 0x00
  const ModeDualChannel: byte := 0x01
  const ModeStereo: byte := 0x02
  const ModeJointStereo: byte := 0x03

  // libsbc's bit-allocation codes.
  const AmLoudness: byte := 0x00
  const AmSnr: byte := 0x01

  // libsbc's sub-band codes.
  const Sb4: byte := 0x00
  const Sb8: byte := 0x01

  // libsbc's little-endian sample order, the only one the wrapper selects.
  const LittleEndian: byte := 0x00

  /** `SbcEncoder.ChannelMode`, whose members carry libsbc's mode codes. */
  datatype ChannelMode = Mono | DualChannel | JointStereo | Stereo

  /** The channel mode a libsbc mode code denotes. */
  function ModeOf(code: byte): Option<ChannelMode> {
    if code == ModeMono then Some(Mono)
    else if code == ModeDualChannel then Some(DualChannel)
    else if code == ModeStereo then Some(Stereo)
    else if code == ModeJointStereo then Some(JointStereo)
    else None
  }

  /** `(byte) channelMode`: the code the enum member is declared with. */
  function ModeCode(m: ChannelMode): (code: byte)
    ensures ModeOf(code) == Some(m)
  {
    match m
    case Mono => ModeMono
    case DualChannel => ModeDualChannel
    case JointStereo => ModeJointStereo
    case Stereo => ModeStereo
  }

  /** Every code that denotes a mode is that mode's code. */
  lemma ModeCodeInverse(code: byte, m: ChannelMode)
    ensures ModeOf(code) == Some(m) <==> ModeCode(m) == code
  {
  }

  /** The sampling rate in Hz a frequency code denotes; 0 for a code that denotes none. */
  function RateOf(code: byte): nat {
    if code == Freq16000 then 16000
    else if code == Freq32000 then 32000
    else if code == Freq44100 then 44100
    else if code == Freq48000 then 48000
    else 0
  }

  /** The `sampleRate switch`: the code of a supported rate; any other rate
      keeps `initial`, the code `sbc_init` left in the state. */
  function FrequencyCode(sampleRate: int, initial: byte): (code: byte)
    ensures sampleRate in {16000, 32000, 44100, 48000} ==> RateOf(code) == sampleRate
    ensures sampleRate !in {16000, 32000, 44100, 48000} ==> code == initial
  {
    match sampleRate
    case 16000 => Freq16000
    case 32000 => Freq32000
    case 44100 => Freq44100
    case 48000 => Freq48000
    case _ => initial
  }

  /** The number of sub-bands a sub-band code denotes. */
  function SubbandCount(code: byte): nat {
    if code == Sb4 then 4 else 8
  }

  /** `subBands == 4 ? SBC_SB_4 : SBC_SB_8`: anything but 4 asks for eight. */
  function SubbandsCode(subBands: int): (code: byte)
    ensures code == Sb4 || code == Sb8
    ensures SubbandCount(code) == 4 <==> subBands == 4
  {
    if subBands == 4 then Sb4 else Sb8
  }

  /** The number of blocks a block code in 0..3 denotes. */
  function BlockCount(code: byte): nat {
    4 * (code + 1)
  }

  /** The `blocks switch`: 4, 8 and 12 keep their count, every other value,
      16 included, becomes sixteen. */
  function BlocksCode(blocks: int): (code: byte)
    ensures code <= Blk16
    ensures BlockCount(code) == if blocks in {4, 8, 12} then blocks else 16
  {
    match blocks
    case 4 => Blk4
    case 8 => Blk8
    case 12 => Blk12
    case _ => Blk16
  }

  /** `snr ? SBC_AM_SNR : SBC_AM_LOUDNESS`. */
  function AllocationCode(snr: bool): (code: byte)
    ensures code == AmSnr || code == AmLoudness
    ensures code == AmSnr <==> snr
  {
    if snr then AmSnr else AmLoudness
  }

  /** The value fields of libsbc's `sbc_t`; its two pointers to the encoder's
      private memory are the separate `priv` token below. */
  datatype SbcState = SbcState(flags: uint32, frequency: byte, blocks: byte, subbands: byte,
                               mode: byte, allocation: byte, bitpool: byte, endian: byte)

  /** What `sbc_init` reports and leaves behind. */
  datatype InitResult = InitResult(status: int, state: SbcState, priv: int)

  /** What `sbc_encode` reports: the input bytes consumed (its return value),
      the count stored through `written`, the bytes it wrote to the output, and
      the encoder's private memory afterwards. */
  datatype EncodeResult = EncodeResult(consumed: int, written: int, output: seq<byte>, priv: int)

  /** The libsbc entry points the wrapper calls. `priv` is an opaque token for
      the analysis-filter memory the native encoder keeps between calls. */
  datatype Native = Native(
    init: uint32 -> InitResult,
    codeSize: SbcState -> nat,
    frameLength: SbcState -> nat,
    encode: (SbcState, int, seq<byte>, nat) -> EncodeResult)

  /** libsbc's promise about one `sbc_encode` call: it writes exactly `written`
      bytes, no more than one frame and no more than the room it was given. */
  predicate Writes(r: EncodeResult, frameLength: nat, room: nat) {
    r.written == |r.output| && |r.output| <= frameLength && |r.output| <= room
  }

  /** One `sbc_encode(st, input, |input|, output, room, &written)` call made with private memory `priv`. */
  function EncodeCall(lib: Native, st: SbcState, priv: int, input: seq<byte>, room: nat): EncodeResult {
    lib.encode(st, priv, input, room)
  }

  ghost predicate WellBehaved(lib: Native) {
    forall st, priv, input, room :: Writes(EncodeCall(lib, st, priv, input, room), lib.frameLength(st), room)
  }

  /** The constructor's field assignments on `_sbc`: nothing is configured when
      `sbc_init` fails (the constructor throws), otherwise each setting is
      mapped onto its code over what `sbc_init` produced. */
  function Configure(lib: Native, sampleRate: int, subBands: int, bitPool: int,
                     channelMode: ChannelMode, snr: bool, blocks: int): (r: Option<SbcState>)
    ensures r.None? <==> lib.init(0).status < 0
    ensures r.Some? ==>
      var st, initial := r.value, lib.init(0).state;
      st.flags == initial.flags &&
      (sampleRate in {16000, 32000, 44100, 48000} ==> RateOf(st.frequency) == sampleRate) &&
      (sampleRate !in {16000, 32000, 44100, 48000} ==> st.frequency == initial.frequency) &&
      (SubbandCount(st.subbands) == 4 <==> subBands == 4) &&
      ModeOf(st.mode) == Some(channelMode) &&
      st.endian == LittleEndian &&
      st.bitpool == bitPool % 0x100 &&
      (st.allocation == AmSnr <==> snr) &&
      BlockCount(st.blocks) == (if blocks in {4, 8, 12} then blocks else 16)
  {
    var init := lib.init(0);
    if init.status < 0 then None
    else
      Some(init.state.(frequency := FrequencyCode(sampleRate, init.state.frequency),
                       subbands := SubbandsCode(subBands),
                       mode := ModeCode(channelMode),
                       endian := LittleEndian,
                       bitpool := bitPool % 0x100,
                       allocation := AllocationCode(snr),
                       blocks := BlocksCode(blocks)))
  }

  class SbcEncoder {
    const lib: Native
    const sbc: SbcState
    var priv: int
    /** `CodeSize`: the PCM bytes one frame encodes. */
    const codeSize: nat
    /** `FrameSize`: the bytes of one encoded frame. */
    const frameSize: nat

    ghost predicate Valid() {
      WellBehaved(lib) && codeSize == lib.codeSize(sbc) && frameSize == lib.frameLength(sbc)
    }

    constructor Init(lib: Native, sbc: SbcState, priv: int)
      ensures this.lib == lib && this.sbc == sbc && this.priv == priv
      ensures codeSize == lib.codeSize(sbc) && frameSize == lib.frameLength(sbc)
    {
      this.lib, this.sbc, this.priv := lib, sbc, priv;
      codeSize, frameSize := lib.codeSize(sbc), lib.frameLength(sbc);
    }

    /** The public constructor; `null` stands for the exception it throws
        when `sbc_init` fails. */
    static method Create(lib: Native, sampleRate: int, subBands: int, bitPool: int,
                         channelMode: ChannelMode, snr: bool, blocks: int) returns (e: SbcEncoder?)
      requires WellBehaved(lib)
      ensures e == null <==> lib.init(0).status < 0
      ensures e != null ==> fresh(e) && e.Valid() && e.priv == lib.init(0).priv &&
                            Some(e.sbc) == Configure(lib, sampleRate, subBands, bitPool, channelMode, snr, blocks)
    {
      var config := Configure(lib, sampleRate, subBands, bitPool, channelMode, snr, blocks);
      if config.None? {
        return null;
      }
      e := new SbcEncoder.Init(lib, config.value, lib.init(0).priv);
    }

    /** `Encode(src, dst, dstSize, out encoded)`: libsbc always gets exactly
        `codeSize` input bytes and the caller's `dstSize` as its room; the
        consumed count is returned and the written count passed back. The
        caller's buffer must hold a frame at `dstAt`. */
    method Encode(src: array<byte>, srcAt: nat, dst: array<byte>, dstAt: nat, dstSize: nat) returns (len: int, encoded: int)
      requires Valid() && src != dst
      requires srcAt + codeSize <= src.Length && dstAt + frameSize <= dst.Length
      modifies this`priv, dst
      ensures var r := EncodeCall(lib, sbc, old(priv), old(src[srcAt..srcAt + codeSize]), dstSize);
              len == r.consumed && encoded == r.written && priv == r.priv &&
              Writes(r, frameSize, dstSize) &&
              dst[..] == Overlay(old(dst[..]), dstAt, r.output)
      ensures src[..] == old(src[..])
    {
      var r := EncodeCall(lib, sbc, priv, src[srcAt..srcAt + codeSize], dstSize);
      StoreBytes(dst, dstAt, r.output);
      priv := r.priv;
      len, encoded := r.consumed, r.written;
    }
  }
}
