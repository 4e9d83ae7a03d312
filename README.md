# H.265 decoder bridge and I420 frame layout, modelled in Dafny

This project models the two parts of the H.265 web decoder that carry logic of their own:

* the **decoder driver** (`src/decode_h265.c`), the C glue compiled to WebAssembly that sets up
  FFmpeg's H.265 decoder, feeds it an ITU-T H.265 Annex B byte stream chunk by chunk through the
  parser, drains decoded frames, copies each into a freshly allocated YUV420P buffer that it hands
  to a host callback, flushes and closes;
* the **frame builder** (`yuv420ToVideoFrame` in `src/utils/frame.ts`), which computes the plane
  offsets and strides of a contiguous I420 buffer (VideoPixelFormat "I420" of the W3C WebCodecs
  specification, section "Pixel Format") and the `VideoFrameBufferInit` dictionary around them.

Files:

* `wrappers.dfy`: `Option`.
* `frame.dfy`, module `Frame`: the layout arithmetic as pure functions, a reference definition of
  a packed I420 buffer (`IsPackedI420`) and lemmas on tiling, addressing and the timestamp.
* `ffmpeg_oracle.dfy`, module `FfmpegOracle`: FFmpeg as an oracle. `Env` holds the answers the
  library will give to each kind of call (parser steps, sends, receives, allocations, copies), in
  order; every call consumes the next one. A script that has run out answers EAGAIN for a receive
  and success for a send, an allocation or a copy. `Event` is what the driver observably does.
* `decode_spec.dfy`, module `DecodeSpec`: each step of the driver as a function over the oracle
  (`Init`, `Deliver`, `Drain`, `DecodePacket`, `DecodeBuffer`, `Close`) and the lemmas that state
  what the driver promises.
* `decoder.dfy`, module `DecodeH265`: class `Decoder`, whose fields are the C globals
  (`yuv420pBufferCallback`, `decoder`, `parserContext`, `decoderContext`, `packet`, `frame`), the
  frame's `format` field (`frameFormat`), the oracle and a ghost trace `events` of packets sent,
  buffers allocated and freed, callback calls and handles released. Its methods follow the C
  control flow step by step, loops included, and each is proved equal to the corresponding
  `DecodeSpec` function. `InitDecoder` and `CloseDecoder` follow the corrected flow described
  under "## Findings"; the flow as written is modelled by `DecodeSpec.InitAsWritten` and
  `DecodeSpec.CloseAsWritten`.

The parse loop of `decode_AnnexB_buffer` only ends if each parser step makes progress. That is an
assumption about FFmpeg, not something the code checks, and it is stated as one:
`DecodeSpec.Progresses` (every parser answer is an error or consumes between 1 and the remaining
number of bytes) is a precondition of `DecodeBuffer` and of `Decoder.DecodeAnnexBBuffer`.

## Model

| member | source | states |
|---|---|---|
| `Frame.Layout` | src/utils/frame.ts:2-22 | for even dimensions the layout array is a packed I420 layout: Y at offset 0 with stride `width`, U right after Y, V right after U, both chroma strides `width/2`, and V ends at `width*height*3/2` |
| `Frame.LayoutFillsFrame` | src/utils/frame.ts:2-7 | `width*height + 2*(width/2)*(height/2) == width*height*3/2` for even dimensions |
| `Frame.MakeInit` | src/utils/frame.ts:23-29 | coded width and height are the inputs, format is "I420", a supplied timestamp is used unchanged and the clock reading only when none is supplied, layout is packed I420 |
| `Frame.Yuv420ToVideoFrame` | src/utils/frame.ts:1-32 | as written: the frame is handed the view's whole underlying buffer with the init of `MakeInit` |
| `Frame.Yuv420ToVideoFrameFromView` | src/utils/frame.ts:31 | corrected: the frame is handed exactly the bytes the view shows, with the same init |
| `Frame.OffsetsIncrease` | src/utils/frame.ts:5-7 | for positive even dimensions the offsets strictly increase and V starts inside the frame |
| `Frame.PlanesTile` | src/utils/frame.ts:2-7 | a byte index lies in `[0, width*height*3/2)` exactly when it lies in some plane, and no byte lies in two planes |
| `Frame.PlaneWithinFrame` | src/utils/frame.ts:2-7 | every plane ends inside the `width*height*3/2` bytes of the frame |
| `Frame.SampleInPlane` | src/utils/frame.ts:9-22 | sample (x, y) of a plane, addressed row-major with that plane's stride, lies inside the plane |
| `Frame.SamplesDistinct` | src/utils/frame.ts:9-22 | two samples at the same byte are the same sample of the same plane |
| `Frame.SuppliedTimestampIgnoresClock` | src/utils/frame.ts:24 | with a supplied timestamp the frame does not depend on the clock and carries that timestamp |
| `Frame.AsWrittenAgreesAtOffsetZero` | src/utils/frame.ts:31 | as written, a view starting at byte 0 of its buffer yields exactly the view's planes |
| `Frame.AsWrittenIgnoresByteOffset` | src/utils/frame.ts:31 | as written, a view at byte offset 1 yields a luma plane different from the view's |
| `Frame.FromViewReadsView` | src/utils/frame.ts:31 | corrected: every plane of the frame is the plane at that offset of the view's own bytes |
| `DecodeSpec.InitAsWritten` | src/decode_h265.c:92-97 | as written: the pixel format is stored through NULL exactly when the first four steps succeed and `av_frame_alloc` fails |
| `DecodeSpec.InitAsWrittenStoresThroughNull` | src/decode_h265.c:92-94 | a concrete setup in which the as-written store goes through NULL |
| `DecodeSpec.Init` | src/decode_h265.c:65-109 | Ok exactly when all six setup steps succeed; the callback is registered only then (otherwise the old one stays); on Ok all five handles are live; the format is never stored through NULL |
| `DecodeSpec.InitAgreesWithAsWritten` | src/decode_h265.c:65-109 | moving the store after the check changes neither result, handles nor callback |
| `DecodeSpec.InitFailureKeepsLaterHandles` | src/decode_h265.c:68-106 | the first failing step breaks out: handles of later steps are left as they were |
| `DecodeSpec.CloseAsWritten` | src/decode_h265.c:222-239 | as written, close releases exactly what the corrected close releases and leaves the same handles, except that a set parser is left dangling instead of NULL |
| `DecodeSpec.Close` | src/decode_h265.c:222-239 | the corrected close leaves every handle but the codec descriptor NULL, and records only releases of handles that were set |
| `DecodeSpec.CloseAsWrittenTwiceFreesParserTwice` | src/decode_h265.c:225-227 | as written, closing twice after a live parser releases the parser again while it is already freed |
| `DecodeSpec.CloseReleasesSetHandles` | src/decode_h265.c:222-239 | close releases every non-NULL handle once with its state, releases nothing else, and leaves all four NULL; the codec is untouched |
| `DecodeSpec.CloseTwiceReleasesNothing` | src/decode_h265.c:222-239 | corrected close: a second close releases nothing and changes nothing |
| `DecodeSpec.CloseReleasesOnlyLiveHandles` | src/decode_h265.c:222-239 | corrected close never releases a freed handle and never leaves one dangling |
| `DecodeSpec.Deliver` | src/decode_h265.c:117-139 | the events are none (negative size or failed allocation), allocate-then-free (failed copy) or allocate, call back with `bufferSize == frameSize` and the frame's width and height, then free; only the allocation and copy answers are used |
| `DecodeSpec.DeliverCallsBackAtMostOnce` | src/decode_h265.c:117-139 | the buffer is freed on every path once allocated and only after the callback; the callback happens exactly when size, allocation and copy all succeed |
| `DecodeSpec.DeliverKeepsReliable` | src/decode_h265.c:124-138 | with reliable memory a frame of known size is delivered with exactly one callback |
| `DecodeSpec.Drain` | src/decode_h265.c:159-168 | every frame received uses up one receive answer, so there are never more frames than answers; parser and send answers are untouched |
| `DecodeSpec.DrainStopsAtFirstNonFrame` | src/decode_h265.c:159-166 | the loop takes exactly the frames before the first non-frame answer, in order, consumes that answer, and fails exactly when it is an error other than EAGAIN or EOF |
| `DecodeSpec.DrainDisciplined` | src/decode_h265.c:159-168 | the loop's events are deliveries only, each allocation freed after at most one callback |
| `DecodeSpec.DrainAtMostOneCallPerFrame` | src/decode_h265.c:159-168 | no more callback calls than frames received |
| `DecodeSpec.DrainCallsBackOncePerFrame` | src/decode_h265.c:159-168 | with reliable memory, exactly one callback per frame received, in receive order, with its size and dimensions |
| `DecodeSpec.DecodePacket` | src/decode_h265.c:149-172 | a failed send gives FFmpegError with no frame received; after a successful send the result, the frames received and the remaining answers are those of the receive loop `DecodeSpec.Drain` (Ok on EAGAIN or EOF, FFmpegError on another error); parser answers are untouched |
| `DecodeSpec.DecodePacketSendFailure` | src/decode_h265.c:154-157 | a failed send gives FFmpegError, receives nothing and calls nothing back |
| `DecodeSpec.DecodePacketDisciplined` | src/decode_h265.c:154-168 | the first event is the send (of the packet, or the NULL flush packet), the rest are disciplined deliveries, at most one callback per frame |
| `DecodeSpec.DecodePacketCallsBackOncePerFrame` | src/decode_h265.c:154-168 | with reliable memory, exactly one callback per frame received, in order |
| `DecodeSpec.DecodeStep` | src/decode_h265.c:185-202 | one turn of the parse loop: a parser error gives FFmpegError with nothing consumed and no event; a turn that succeeds consumes at least one byte and no more than remain, and leaves the parser able to go on; a parser answer that is not an error moves the buffer by exactly the bytes it reports (lines 194-195) |
| `DecodeSpec.DecodeStepEvents` | src/decode_h265.c:197-202 | a turn sends at most one packet and never an empty or NULL one: the parser's packet first when it is non-empty, no event at all when it is empty; every output buffer it allocates is freed after at most one callback |
| `DecodeSpec.DecodeStepCallsBackOncePerFrame` | src/decode_h265.c:197-202 | with reliable memory, a turn calls back exactly once per frame it receives, in order, and memory stays reliable |
| `DecodeSpec.DecodeBuffer` | src/decode_h265.c:184-196 | byte accounting: never more than the input is consumed, and on Ok exactly all of it |
| `DecodeSpec.DecodeBufferSendsOnlyNonEmptyPackets` | src/decode_h265.c:197-202 | only packets of non-zero size are sent, never the NULL packet |
| `DecodeSpec.DecodeBufferDisciplined` | src/decode_h265.c:184-203 | every output buffer allocated while decoding is freed, after at most one callback |
| `DecodeSpec.DecodeBufferCallsBackOncePerFrame` | src/decode_h265.c:184-203 | with reliable memory, every frame received while decoding is handed to the callback once, in order |
| `DecodeSpec.DecodeBufferStopsOnParseError` | src/decode_h265.c:189-192 | a parser error stops the loop at once with FFmpegError: nothing sent, nothing called back |
| `DecodeSpec.DecodeBufferStopsOnPacketError` | src/decode_h265.c:197-201 | a failing packet's result is returned and no further parser answer is used |
| `DecodeH265.Decoder.constructor` | src/decode_h265.c:32-57 | every global starts NULL, no callback, an empty trace |
| `DecodeH265.Decoder.AvParserParse2` | src/decode_h265.c:185-187 | the parser step returns the next scripted parser answer and consumes it, nothing else |
| `DecodeH265.Decoder.AvcodecSendPacket` | src/decode_h265.c:154 | the send returns the next scripted send answer and records the packet (or the NULL flush packet) in the trace |
| `DecodeH265.Decoder.AvcodecReceiveFrame` | src/decode_h265.c:160 | the receive returns the next scripted receive answer (EAGAIN once the script is exhausted) and consumes it |
| `DecodeH265.Decoder.AvMalloc` | src/decode_h265.c:124 | the allocation returns the next scripted allocation answer and consumes it |
| `DecodeH265.Decoder.AvImageCopyToBuffer` | src/decode_h265.c:129-131 | the copy returns the next scripted copy answer and consumes it |
| `DecodeH265.Decoder.InitDecoder` | src/decode_h265.c:65-109 | result, handles and callback are those of `DecodeSpec.Init`; the pixel format becomes YUV420P exactly when the frame was allocated and is otherwise left alone; on Ok the decoder is ready; no oracle answer or event is used |
| `DecodeH265.Decoder.SendFrameToCallback` | src/decode_h265.c:117-139 | oracle answers consumed and events appended are those of `DecodeSpec.Deliver` |
| `DecodeH265.Decoder.DecodePacket` | src/decode_h265.c:149-172 | result, oracle state and events appended are those of `DecodeSpec.DecodePacket` |
| `DecodeH265.Decoder.ReceiveFrames` | src/decode_h265.c:159-168 | the receive loop's result, oracle state and events are those of `DecodeSpec.Drain` |
| `DecodeH265.Decoder.ParseTurn` | src/decode_h265.c:185-202 | one iteration of the parse loop consumes the oracle answers, advances the buffer and appends the events exactly as `DecodeSpec.DecodeStep` says |
| `DecodeH265.Decoder.TrackedTurn` | src/decode_h265.c:184-203 | one iteration keeps the loop invariant: the turns taken so far followed by `DecodeSpec.DecodeBuffer` on the rest make up the whole run, or a failed turn ends the run with its result |
| `DecodeH265.Decoder.ParseLoop` | src/decode_h265.c:184-203 | the `while (bufferSize > 0)` loop ends with the result, position, oracle state and events of `DecodeSpec.DecodeBuffer`; its invariant keeps the bytes passed plus the bytes left equal to the buffer's size |
| `DecodeH265.Decoder.DecodeAnnexBBuffer` | src/decode_h265.c:181-206 | result, oracle state and events are those of `DecodeSpec.DecodeBuffer`; the buffer position never passes the end and reaches it on Ok |
| `DecodeH265.Decoder.FlushDecoder` | src/decode_h265.c:213-215 | `decodePacket` with the NULL packet: the first event is the flush send |
| `DecodeH265.Decoder.CloseDecoder` | src/decode_h265.c:222-239 | returns Ok; handles and released events are those of `DecodeSpec.Close` |

## Left out

- FFmpeg itself: H.265 parsing and decoding, `av_image_get_buffer_size`'s formula and `av_image_copy_to_buffer`'s pixel copy. Their results are oracle answers; the bytes handed to the callback are not modelled, only their count and the frame's dimensions.
- The oracle defaults (EAGAIN for an exhausted receive script, success for exhausted send, allocation and copy scripts) are modelling choices, not FFmpeg behaviour.
- DecodeH265.Decoder.DecodeAnnexBBuffer: requires `DecodeSpec.Progresses`: every parser answer is an error or consumes between 1 and the remaining number of bytes. The source has no such guard. A step that consumes 0 bytes without error only calls the stateful parser again on the same bytes, and the loop hangs only if the parser never moves on. The model therefore leaves out every run with a 0-byte step, including runs that terminate, such as a parser that returns 0 together with a complete packet when a frame boundary falls between two calls. The `size < 0` error branch is modelled as the code has it, whether or not the library ever takes it.
- DecodeH265.Decoder.DecodeAnnexBBuffer: requires an initialised decoder (`Ready`), and so does `FlushDecoder`; the source does not check, and calls before `init_decoder` or after `close_decoder` use NULL or freed handles, which the model does not represent. The internal `decodePacket` needs only a registered callback.
- DecodeSpec.DrainCallsBackOncePerFrame: "exactly one callback per frame" is proved only when allocation and copy never fail and every frame has a known size; otherwise `DrainAtMostOneCallPerFrame` gives the bound.
- The registered callback is assumed to return without touching the decoder: its `Invoke` event changes no handle and no oracle answer. A host callback that calls `close_decoder`, `flush_decoder` or `decode_AnnexB_buffer` again would free or reuse `frame` and `decoderContext` while `decodePacket` is still receiving into them; re-entrant calls are not modelled, and "one callback per frame" and the buffer discipline are proved only for a callback that does not re-enter.
- Integer widths: `bufferSize` is a 32-bit `size_t` in WebAssembly and `av_parser_parse2` takes an `int`; buffers of 2^31 bytes or more are not modelled.
- Leaks when `init_decoder` runs again or fails half-way (earlier handles are overwritten without release) are not recorded in the trace.
- `main` (src/decode_h265.c:245) is a test stub and is not modelled.
- Handles are abstract states (NULL, live, freed); addresses and aliasing are not modelled.
- Frame.Layout: requires even width and height; for odd dimensions JavaScript computes fractional sizes and strides, which this model does not represent.
- The `VideoFrame` constructor's own validation and `performance.now()` are host APIs: the frame is the value handed to the constructor, and the clock reading is the parameter `now`.
- Errors for closed sessions, odd dimensions or buffer-length mismatch are not implemented by this code and are not modelled.
- The renderers (src/renderer/renderer_webgpu.ts, src/renderer/renderer_2d.ts), the installer index.cjs, the type declarations and the build configuration are not part of this model: GPU and canvas calls, file copying and declarations only.

## Findings

| source | as written | input that shows it | evidently intended | confidence | as-written member | corrected member |
|---|---|---|---|---|---|---|
| src/decode_h265.c:92-94 | `frame->format` is stored before `frame` is checked against NULL | the first four setup steps succeed and `av_frame_alloc` returns NULL | check `frame`, then store the format | high, not executed | `DecodeSpec.InitAsWritten`, `DecodeSpec.InitAsWrittenStoresThroughNull` | `DecodeSpec.Init`, `DecodeH265.Decoder.InitDecoder` |
| src/decode_h265.c:225-227 | `av_parser_close` frees the parser but `parserContext` keeps its value, unlike the three handles freed through `&p` | `close_decoder` called twice after a successful `init_decoder` | reset `parserContext` to NULL after closing it | medium, not executed | `DecodeSpec.CloseAsWritten`, `DecodeSpec.CloseAsWrittenTwiceFreesParserTwice` | `DecodeSpec.Close`, `DecodeSpec.CloseTwiceReleasesNothing`, `DecodeH265.Decoder.CloseDecoder` |
| src/utils/frame.ts:31 | the frame is given `yuv420.buffer`, the whole underlying ArrayBuffer, while the plane offsets count from 0 | a 2x2 picture in a `Uint8Array` view at byte offset 1 of a 7-byte buffer | hand the view's own bytes (for example `yuv420.slice()`) | medium, not executed | `Frame.Yuv420ToVideoFrame`, `Frame.AsWrittenIgnoresByteOffset` | `Frame.Yuv420ToVideoFrameFromView`, `Frame.FromViewReadsView` |
