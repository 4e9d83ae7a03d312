/**
 * The values that cross the boundary between src/decode_h265.c and FFmpeg.
 *
 * FFmpeg itself (H.265 parsing and decoding, pixel copying, the image-size formula) is not part
 * of this model. Each FFmpeg call is an oracle: `Env` holds, per kind of call, the answers the
 * library will give, in order, and every call consumes the next one. A script that has run out
 * gives a default answer, a choice of this model rather than the library's behaviour:
 * `avcodec_receive_frame` says EAGAIN, `avcodec_send_packet`, `av_malloc` and
 * `av_image_copy_to_buffer` succeed. The parser
 * has no such default: callers state how its answers make progress (DecodeSpec.Progresses).
 */
module FfmpegOracle {

  /** `DecoderResult`: what every exported function of the decoder returns. */
  datatype DecoderResult = Ok | FFmpegError

  /** A host function registered with `init_decoder` (its index in the wasm function table). */
  datatype Callback = Callback(tableIndex: nat)

  /**
   * The fields of the decoded `AVFrame` that `sendFrameToCallback` reads; `imageSize` is the
   * answer of `av_image_get_buffer_size` for the frame's format and dimensions (negative on error).
   */
  datatype Picture = Picture(width: int, height: int, imageSize: int)

  /** One answer of `av_parser_parse2`: an error, or the bytes consumed and the packet size. */
  datatype ParseAnswer = ParseFailed | Parsed(consumed: nat, packetSize: nat)

  /** One answer of `avcodec_receive_frame`: a frame, EAGAIN, AVERROR_EOF or another error. */
  datatype ReceiveAnswer = Got(picture: Picture) | Again | EndOfFile | Failed

  /** Whether each of the six setup calls of `init_decoder` succeeds. */
  datatype SetupAnswers = SetupAnswers(
    codecFound: bool,        // avcodec_find_decoder(AV_CODEC_ID_H265) != NULL
    parserCreated: bool,     // av_parser_init(...) != NULL
    contextAllocated: bool,  // avcodec_alloc_context3(...) != NULL
    codecOpened: bool,       // avcodec_open2(...) >= 0
    frameAllocated: bool,    // av_frame_alloc() != NULL
    packetAllocated: bool)   // av_packet_alloc() != NULL

  /** The answers FFmpeg will give, per kind of call, in order. */
  datatype Env = Env(
    parses: seq<ParseAnswer>,
    sends: seq<bool>,
    receives: seq<ReceiveAnswer>,
    allocs: seq<bool>,
    copies: seq<bool>)

  /** `AVFrame.format`: unset (AV_PIX_FMT_NONE) or AV_PIX_FMT_YUV420P. */
  datatype PixelFormat = PixFmtNone | PixFmtYuv420p

  /** The state of one of the decoder's global pointers. `Dangling`: non-null but freed. */
  datatype Handle = Null | Live | Dangling

  /** The global FFmpeg pointers of the decoder. */
  datatype Handles = Handles(codec: Handle, parser: Handle, context: Handle, frame: Handle, packet: Handle)

  datatype HandleName = ParserContext | DecoderContext | FrameObject | PacketObject

  /**
   * What the decoder does that the outside can observe: packets handed to the decoder, the
   * output buffer's allocation and release, calls of the registered callback, and the release of
   * a global handle (with the state the handle was in when it was released).
   */
  datatype Event =
    | SendPacket(packetSize: nat)
    | SendFlush
    | Alloc(size: int)
    | Invoke(callback: Callback, bufferSize: int, width: int, height: int)
    | Free(size: int)
    | Release(name: HandleName, state: Handle)

  /** The handle an allocation that succeeded or failed leaves behind. */
  function Allocated(success: bool): Handle {
    if success then Live else Null
  }

  /** The next answer of a script, or `default` once it has run out. */
  function Next<T>(script: seq<T>, default: T): T {
    if script == [] then default else script[0]
  }

  /** The script after one answer has been taken. */
  function Rest<T>(script: seq<T>): seq<T> {
    if script == [] then [] else script[1..]
  }
}
