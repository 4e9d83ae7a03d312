/**
 * The decoder driver of src/decode_h265.c: its global handles as the fields of one object, its
 * exported functions as methods that change them. Every FFmpeg call consumes the next answer of
 * the oracle `ffmpeg`; the ghost `events` records, in order, the packets sent, the output buffers
 * allocated and freed, the calls of the registered callback and the handles released. Each
 * method is proved to do what the function of the same step in `DecodeSpec` says.
 */
module DecodeH265 {
  import opened Wrappers
  import opened FfmpegOracle
  import DecodeSpec

  class Decoder {
    // The global variables of decode_h265.c.
    var yuv420pBufferCallback: Option<Callback>
    var decoder: Handle
    var parserContext: Handle
    var decoderContext: Handle
    var packet: Handle
    var frame: Handle
    var frameFormat: PixelFormat

    /** The answers FFmpeg will give from now on. */
    var ffmpeg: Env

    /** What the decoder has done so far, oldest first. */
    ghost var events: seq<Event>

    function Globals(): Handles
      reads this
    {
      Handles(decoder, parserContext, decoderContext, frame, packet)
    }

    /** `init_decoder` succeeded and nothing has been closed since. */
    predicate Ready()
      reads this
    {
      yuv420pBufferCallback.Some? && Globals() == Handles(Live, Live, Live, Live, Live)
    }

    /** The program's start: every global is zero, FFmpeg will answer as `ffmpeg` says. */
    constructor (ffmpeg: Env)
      ensures yuv420pBufferCallback == None && Globals() == Handles(Null, Null, Null, Null, Null)
      ensures frameFormat == PixFmtNone && this.ffmpeg == ffmpeg && events == []
    {
      yuv420pBufferCallback := None;
      decoder, parserContext, decoderContext, packet, frame := Null, Null, Null, Null, Null;
      frameFormat := PixFmtNone;
      this.ffmpeg := ffmpeg;
      events := [];
    }

    // -------------------------------------------------------------------------------------------
    // The FFmpeg calls: each consumes the next answer of its script.

    method AvParserParse2(remaining: nat) returns (answer: ParseAnswer)
      requires ffmpeg.parses != []
      modifies this`ffmpeg
      ensures answer == old(ffmpeg.parses[0]) && ffmpeg == old(ffmpeg.(parses := ffmpeg.parses[1..]))
    {
      answer := ffmpeg.parses[0];
      ffmpeg := ffmpeg.(parses := ffmpeg.parses[1..]);
    }

    method AvcodecSendPacket(pkt: Option<nat>) returns (ok: bool)
      modifies this`ffmpeg, this`events
      ensures ok == Next(old(ffmpeg.sends), true) && ffmpeg == old(ffmpeg.(sends := Rest(ffmpeg.sends)))
      ensures events == old(events) + [if pkt.Some? then SendPacket(pkt.value) else SendFlush]
    {
      ok := Next(ffmpeg.sends, true);
      ffmpeg := ffmpeg.(sends := Rest(ffmpeg.sends));
      events := events + [if pkt.Some? then SendPacket(pkt.value) else SendFlush];
    }

    method AvcodecReceiveFrame() returns (answer: ReceiveAnswer)
      modifies this`ffmpeg
      ensures answer == Next(old(ffmpeg.receives), Again) && ffmpeg == old(ffmpeg.(receives := Rest(ffmpeg.receives)))
    {
      answer := Next(ffmpeg.receives, Again);
      ffmpeg := ffmpeg.(receives := Rest(ffmpeg.receives));
    }

    method AvMalloc() returns (ok: bool)
      modifies this`ffmpeg
      ensures ok == Next(old(ffmpeg.allocs), true) && ffmpeg == old(ffmpeg.(allocs := Rest(ffmpeg.allocs)))
    {
      ok := Next(ffmpeg.allocs, true);
      ffmpeg := ffmpeg.(allocs := Rest(ffmpeg.allocs));
    }

    method AvImageCopyToBuffer() returns (ok: bool)
      modifies this`ffmpeg
      ensures ok == Next(old(ffmpeg.copies), true) && ffmpeg == old(ffmpeg.(copies := Rest(ffmpeg.copies)))
    {
      ok := Next(ffmpeg.copies, true);
      ffmpeg := ffmpeg.(copies := Rest(ffmpeg.copies));
    }

    // -------------------------------------------------------------------------------------------
    // The exported functions and their helpers.

    /**
     * `init_decoder`: six setup steps, the first failure breaks out with FFmpegError, the
     * callback is stored only after all six succeed. The pixel format is stored after `frame`
     * is checked (the source stores it before; see DecodeSpec.InitAsWritten).
     */
    method InitDecoder(callback: Callback, answers: SetupAnswers) returns (ret: DecoderResult)
      modifies this
      ensures var s := DecodeSpec.Init(answers, old(Globals()), old(yuv420pBufferCallback), callback);
        ret == s.result && Globals() == s.handles && yuv420pBufferCallback == s.callback
      ensures frameFormat == if answers.codecFound && answers.parserCreated && answers.contextAllocated
        && answers.codecOpened && answers.frameAllocated then PixFmtYuv420p else old(frameFormat)
      ensures ret == Ok ==> Ready()
      ensures ffmpeg == old(ffmpeg) && events == old(events)
    {
      ret := Ok;
      decoder := Allocated(answers.codecFound);
      if decoder == Null {
        return FFmpegError;
      }
      parserContext := Allocated(answers.parserCreated);
      if parserContext == Null {
        return FFmpegError;
      }
      decoderContext := Allocated(answers.contextAllocated);
      if decoderContext == Null {
        return FFmpegError;
      }
      if !answers.codecOpened {
        return FFmpegError;
      }
      frame := Allocated(answers.frameAllocated);
      if frame == Null {
        return FFmpegError;
      }
      frameFormat := PixFmtYuv420p;
      packet := Allocated(answers.packetAllocated);
      if packet == Null {
        return FFmpegError;
      }
      yuv420pBufferCallback := Some(callback);
    }

    /**
     * `sendFrameToCallback`: size the output buffer, allocate it, copy the frame into it, hand
     * it to the callback, free it.
     */
    method SendFrameToCallback(p: Picture)
      requires yuv420pBufferCallback.Some?
      modifies this`ffmpeg, this`events
      ensures var d := DecodeSpec.Deliver(yuv420pBufferCallback.value, p, old(ffmpeg));
        ffmpeg == d.env && events == old(events) + d.events
    {
      var frameSize := p.imageSize;
      if frameSize < 0 {
        return;
      }
      var allocOk := AvMalloc();
      if !allocOk {
        return;
      }
      events := events + [Alloc(frameSize)];
      var copyOk := AvImageCopyToBuffer();
      if !copyOk {
        events := events + [Free(frameSize)];
        return;
      }
      events := events + [Invoke(yuv420pBufferCallback.value, frameSize, p.width, p.height)];
      events := events + [Free(frameSize)];
    }

    /**
     * `decodePacket`: send the packet (`None` is the NULL packet of a flush); if that succeeds,
     * receive frames and hand each to the callback until EAGAIN, EOF or an error.
     */
    method DecodePacket(pkt: Option<nat>) returns (res: DecoderResult)
      requires yuv420pBufferCallback.Some?
      modifies this`ffmpeg, this`events
      ensures var d := DecodeSpec.DecodePacket(yuv420pBufferCallback.value, pkt, old(ffmpeg));
        res == d.result && ffmpeg == d.env && events == old(events) + d.events
    {
      res := Ok;
      var sent := AvcodecSendPacket(pkt);
      if !sent {
        res := FFmpegError;
      } else {
        res := ReceiveFrames();
      }
    }

    /** The receive loop of `decodePacket` (src/decode_h265.c:159-168). */
    method ReceiveFrames() returns (res: DecoderResult)
      requires yuv420pBufferCallback.Some?
      modifies this`ffmpeg, this`events
      ensures var d := DecodeSpec.Drain(yuv420pBufferCallback.value, old(ffmpeg));
        res == d.result && ffmpeg == d.env && events == old(events) + d.events
    {
      var callback := yuv420pBufferCallback.value;
      res := Ok;
      ghost var got: seq<Picture> := [];
      while true
        invariant |events| >= |old(events)| && events[..|old(events)|] == old(events)
        invariant res == Ok
        invariant DecodeSpec.Drain(callback, old(ffmpeg))
          == DecodeSpec.AfterDrained(got, events[|old(events)|..], DecodeSpec.Drain(callback, ffmpeg))
        decreases |ffmpeg.receives|
      {
        ghost var before := ffmpeg;
        var answer := AvcodecReceiveFrame();
        if answer == Again || answer == EndOfFile {
          DecodeSpec.DrainLastTurn(callback, before);
          break;
        } else if answer == Failed {
          DecodeSpec.DrainLastTurn(callback, before);
          res := FFmpegError;
          break;
        }
        ghost var eventsBefore := events;
        ghost var delivered := DecodeSpec.Deliver(callback, answer.picture, ffmpeg);
        DecodeSpec.DrainTurn(callback, before);
        SendFrameToCallback(answer.picture);
        assert events[|old(events)|..] == eventsBefore[|old(events)|..] + delivered.events;
        DecodeSpec.AfterDrainedTwice(got, eventsBefore[|old(events)|..], [answer.picture], delivered.events, DecodeSpec.Drain(callback, ffmpeg));
        got := got + [answer.picture];
      }
      assert events == old(events) + events[|old(events)|..];
    }

    /**
     * `decode_AnnexB_buffer`: feed the buffer to the parser chunk by chunk, decode every
     * non-empty packet, stop at the first error. The ghost `consumed` is how far `buffer` moved.
     */
    method DecodeAnnexBBuffer(buffer: seq<bv8>) returns (ret: DecoderResult, ghost consumed: nat)
      requires Ready()
      requires DecodeSpec.Progresses(ffmpeg.parses, |buffer|)
      modifies this`ffmpeg, this`events
      ensures var d := DecodeSpec.DecodeBuffer(yuv420pBufferCallback.value, |buffer|, old(ffmpeg));
        ret == d.result && consumed == d.consumed && ffmpeg == d.env && events == old(events) + d.events
      ensures consumed <= |buffer|
      ensures ret == Ok ==> consumed == |buffer|
    {
      var callback := yuv420pBufferCallback.value;
      ghost var whole := DecodeSpec.DecodeBuffer(callback, |buffer|, ffmpeg);
      var offset;
      ret, offset := ParseLoop(callback, |buffer|, whole);
      consumed := offset;
    }

    /**
     * The loop of `decode_AnnexB_buffer` over `bufferSize` bytes, whose run according to
     * `DecodeSpec` is `whole`: it ends with that run's result, having moved `offset` bytes on,
     * and appended that run's events.
     */
    method ParseLoop(ghost callback: Callback, bufferSize: nat, ghost whole: DecodeSpec.Decoded) returns (ret: DecoderResult, offset: nat)
      requires yuv420pBufferCallback == Some(callback) && DecodeSpec.Progresses(ffmpeg.parses, bufferSize)
      requires whole == DecodeSpec.DecodeBuffer(callback, bufferSize, ffmpeg)
      modifies this`ffmpeg, this`events
      ensures ret == whole.result && offset == whole.consumed && ffmpeg == whole.env && events == old(events) + whole.events
    {
      ret := Ok;
      offset := 0;
      ghost var total := bufferSize;
      var bufferSize := bufferSize;
      ghost var got: seq<Picture> := [];
      ghost var produced: seq<Event> := [];
      assert whole == DecodeSpec.AfterDecoded(0, [], [], whole) by {
        assert [] + whole.pictures == whole.pictures && [] + whole.events == whole.events;
      }
      while bufferSize > 0
        invariant DecodeSpec.Progresses(ffmpeg.parses, bufferSize)
        invariant offset + bufferSize == total
        invariant ret == Ok && yuv420pBufferCallback == Some(callback)
        invariant events == old(events) + produced
        invariant whole == DecodeSpec.AfterDecoded(offset, got, produced, DecodeSpec.DecodeBuffer(callback, bufferSize, ffmpeg))
        decreases bufferSize
      {
        var size;
        ret, size, got, produced := TrackedTurn(callback, bufferSize, whole, offset, got, produced, old(events));
        offset := offset + size;
        if ret != Ok {
          break;
        }
        bufferSize := bufferSize - size;
      }
      if ret == Ok {
        DecodeSpec.DecodeBufferDone(callback, whole, offset, got, produced, ffmpeg);
      }
    }

    /**
     * `ParseTurn` seen from the loop of `DecodeAnnexBBuffer`: `whole` is the run of the loop
     * over the entire buffer, `offset`, `got` and `produced` the bytes, frames and events of the
     * turns taken so far, and `base` the trace before the loop started.
     */
    method TrackedTurn(ghost callback: Callback, remaining: nat, ghost whole: DecodeSpec.Decoded, ghost offset: nat,
                       ghost got: seq<Picture>, ghost produced: seq<Event>, ghost base: seq<Event>)
      returns (ret: DecoderResult, consumed: nat, ghost got': seq<Picture>, ghost produced': seq<Event>)
      requires yuv420pBufferCallback == Some(callback) && remaining > 0 && DecodeSpec.Progresses(ffmpeg.parses, remaining)
      requires events == base + produced
      requires whole == DecodeSpec.AfterDecoded(offset, got, produced, DecodeSpec.DecodeBuffer(callback, remaining, ffmpeg))
      modifies this`ffmpeg, this`events
      ensures events == base + produced'
      ensures ret == Ok ==>
        && 0 < consumed <= remaining && DecodeSpec.Progresses(ffmpeg.parses, remaining - consumed)
        && whole == DecodeSpec.AfterDecoded(offset + consumed, got', produced', DecodeSpec.DecodeBuffer(callback, remaining - consumed, ffmpeg))
      ensures ret != Ok ==> whole == DecodeSpec.Decoded(ret, offset + consumed, got', produced', ffmpeg)
    {
      ghost var step := DecodeSpec.DecodeStep(callback, remaining, ffmpeg);
      DecodeSpec.DecodeBufferAdvance(callback, whole, offset, got, produced, remaining, ffmpeg);
      ret, consumed := ParseTurn(callback, remaining);
      assert ret == step.result && consumed == step.consumed && ffmpeg == step.env;
      DecodeSpec.TraceAppend(base, produced, step.events);
      got', produced' := got + step.pictures, produced + step.events;
    }

    /**
     * One turn of the loop of `decode_AnnexB_buffer`: a parser step, then `decodePacket` when the
     * parser produced a non-empty packet. `consumed` is how far `buffer` advances.
     */
    method ParseTurn(ghost callback: Callback, remaining: nat) returns (ret: DecoderResult, consumed: nat)
      requires yuv420pBufferCallback == Some(callback) && remaining > 0 && DecodeSpec.Progresses(ffmpeg.parses, remaining)
      modifies this`ffmpeg, this`events
      ensures var s := DecodeSpec.DecodeStep(callback, remaining, old(ffmpeg));
        ret == s.result && consumed == s.consumed && ffmpeg == s.env && events == old(events) + s.events
    {
      var size := AvParserParse2(remaining);
      if size.ParseFailed? {
        return FFmpegError, 0;
      }
      ret, consumed := Ok, size.consumed;
      if size.packetSize != 0 {
        ret := DecodePacket(Some(size.packetSize));
      }
    }

    /** `flush_decoder`: `decodePacket` with the NULL packet, which drains what FFmpeg holds. */
    method FlushDecoder() returns (ret: DecoderResult)
      requires Ready()
      modifies this`ffmpeg, this`events
      ensures var d := DecodeSpec.DecodePacket(yuv420pBufferCallback.value, None, old(ffmpeg));
        ret == d.result && ffmpeg == d.env && events == old(events) + d.events
      ensures |events| > |old(events)| && events[|old(events)|] == SendFlush
    {
      ret := DecodePacket(None);
    }

    /**
     * `close_decoder`: release each handle that is not NULL and return Ok. `parserContext` is
     * reset to NULL after its release (the source leaves it dangling; see DecodeSpec.CloseAsWritten).
     */
    method CloseDecoder() returns (ret: DecoderResult)
      modifies this`parserContext, this`decoderContext, this`frame, this`packet, this`events
      ensures ret == Ok
      ensures var c := DecodeSpec.Close(old(Globals())); Globals() == c.handles && events == old(events) + c.events
    {
      ret := Ok;
      ghost var h := Globals();
      if parserContext != Null {
        events := events + [Release(ParserContext, parserContext)];
        parserContext := Null;
      }
      ghost var released := DecodeSpec.ReleaseIfSet(ParserContext, h.parser);
      assert events == old(events) + released;
      if decoderContext != Null {
        events := events + [Release(DecoderContext, decoderContext)];
        decoderContext := Null;
      }
      DecodeSpec.TraceAppend(old(events), released, DecodeSpec.ReleaseIfSet(DecoderContext, h.context));
      released := released + DecodeSpec.ReleaseIfSet(DecoderContext, h.context);
      assert events == old(events) + released;
      if frame != Null {
        events := events + [Release(FrameObject, frame)];
        frame := Null;
      }
      DecodeSpec.TraceAppend(old(events), released, DecodeSpec.ReleaseIfSet(FrameObject, h.frame));
      released := released + DecodeSpec.ReleaseIfSet(FrameObject, h.frame);
      assert events == old(events) + released;
      if packet != Null {
        events := events + [Release(PacketObject, packet)];
        packet := Null;
      }
      DecodeSpec.TraceAppend(old(events), released, DecodeSpec.ReleaseIfSet(PacketObject, h.packet));
      released := released + DecodeSpec.ReleaseIfSet(PacketObject, h.packet);
      assert events == old(events) + released;
    }
  }
}
