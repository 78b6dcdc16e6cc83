/**
  The helper's wire format: length-prefixed frames that hold either a binary framebuffer or a JSON object,
  the native decoder, the desktop's decoder of the same frames, and the reader that cuts a pipe into frames.
 */
module HelperWire {
  import opened Bytes
  import opened Wrappers

  const WIRE_VERSION: U16 := 2
  const MAX_FRAME_BYTES := 8 * 1024 * 1024
  const FRAMEBUFFER_MAGIC: seq<Byte> := [0x4D, 0x52, 0x46, 0x42]
  const FRAMEBUFFER_HEADER_BYTES := 10
  const MAX_FRAMEBUFFER_BYTES := MAX_FRAME_BYTES - FRAMEBUFFER_HEADER_BYTES
  const OPENING_BRACE: Byte := 0x7B

  datatype Framebuffer = Framebuffer(width: U16, height: U16, pixels: seq<Byte>)

  /** A JSON event is represented by its serialised body. */
  datatype Event = Display(frame: Framebuffer) | Json(body: seq<Byte>)

  datatype WireError =
    | InvalidDisplaySize(width: U16, height: U16)
    | FrameTooLarge(bytes: nat)
    | InvalidFramebuffer(expected: nat, actual: nat)
    | TruncatedFrame(expected: nat, actual: nat)
    | UnsupportedVersion(version: U16)
    | Io

  datatype Result<T> = Ok(value: T) | Err(error: WireError)

  // ----- Encoding -----

  function PixelBytes(width: U16, height: U16): (n: nat) {
    width * height * 4
  }

  /** `DisplaySize::validate`. */
  function ValidateDisplay(width: U16, height: U16): (error: Result<()>) {
    if !(320 <= width <= 16384) || !(200 <= height <= 16384) then Err(InvalidDisplaySize(width, height))
    else if PixelBytes(width, height) > MAX_FRAMEBUFFER_BYTES then Err(FrameTooLarge(PixelBytes(width, height)))
    else Ok(())
  }

  /** The framebuffer case of `HelperEvent::validate`. */
  function ValidateFramebuffer(f: Framebuffer): (error: Result<()>) {
    var size := ValidateDisplay(f.width, f.height);
    if size.Err? then size
    else if |f.pixels| != PixelBytes(f.width, f.height) then
      Err(InvalidFramebuffer(PixelBytes(f.width, f.height), |f.pixels|))
    else if |f.pixels| > MAX_FRAMEBUFFER_BYTES then Err(FrameTooLarge(|f.pixels|))
    else Ok(())
  }

  function Framed(body: seq<Byte>): (frame: seq<Byte>) {
    BigEndian32(|body|) + body
  }

  function Header(width: U16, height: U16): (header: seq<Byte>) {
    FRAMEBUFFER_MAGIC + BigEndian16(WIRE_VERSION) + BigEndian16(width) + BigEndian16(height)
  }

  lemma HeaderBytes(width: U16, height: U16)
    ensures var header := Header(width, height);
            && |header| == FRAMEBUFFER_HEADER_BYTES
            && header[..4] == FRAMEBUFFER_MAGIC
            && FromBigEndian16(header[4], header[5]) == WIRE_VERSION
            && FromBigEndian16(header[6], header[7]) == width
            && FromBigEndian16(header[8], header[9]) == height
  {
  }

  lemma HeaderIsDetermined(header: seq<Byte>)
    requires |header| == FRAMEBUFFER_HEADER_BYTES && header[..4] == FRAMEBUFFER_MAGIC
    requires FromBigEndian16(header[4], header[5]) == WIRE_VERSION
    ensures Header(FromBigEndian16(header[6], header[7]), FromBigEndian16(header[8], header[9])) == header
  {
    assert header == header[..4] + [header[4], header[5]] + [header[6], header[7]] + [header[8], header[9]];
  }

  function FramebufferBody(f: Framebuffer): (body: seq<Byte>) {
    Header(f.width, f.height) + f.pixels
  }

  function Body(e: Event): (body: seq<Byte>) {
    match e case Display(frame) => FramebufferBody(frame) case Json(body) => body
  }

  predicate Encodable(e: Event) {
    match e
    case Display(frame) => ValidateFramebuffer(frame).Ok?
    case Json(body) => 1 <= |body| <= MAX_FRAME_BYTES && body[0] == OPENING_BRACE
  }

  /** The frame that carries an event. */
  function Encoded(e: Event): (frame: seq<Byte>) {
    Framed(Body(e))
  }

  // ----- The native decoder -----

  /** `frame_body`. */
  function FrameBody(frame: seq<Byte>): (r: Result<seq<Byte>>) {
    if |frame| < 4 then Err(TruncatedFrame(4, |frame|))
    else
      var length := FromBigEndian(frame[..4]);
      if length > MAX_FRAME_BYTES then Err(FrameTooLarge(length))
      else if |frame| != 4 + length then Err(TruncatedFrame(4 + length, |frame|))
      else Ok(frame[4..])
  }

  /** `decode_event_frame`; a body without the magic is left to the JSON decoder. */
  function DecodeEvent(frame: seq<Byte>): (r: Result<Event>) {
    var body := FrameBody(frame);
    if body.Err? then Err(body.error)
    else if FRAMEBUFFER_MAGIC <= body.value then DecodeFramebufferBody(body.value, |frame|)
    else Ok(Json(body.value))
  }

  function DecodeFramebufferBody(body: seq<Byte>, frameLength: nat): (r: Result<Event>) {
    if |body| < FRAMEBUFFER_HEADER_BYTES then Err(TruncatedFrame(4 + FRAMEBUFFER_HEADER_BYTES, frameLength))
    else
      var version := FromBigEndian16(body[4], body[5]);
      var width, height := FromBigEndian16(body[6], body[7]), FromBigEndian16(body[8], body[9]);
      var pixels := body[FRAMEBUFFER_HEADER_BYTES..];
      if version != WIRE_VERSION then Err(UnsupportedVersion(version))
      else if ValidateDisplay(width, height).Err? then Err(ValidateDisplay(width, height).error)
      else if |pixels| != PixelBytes(width, height) then Err(InvalidFramebuffer(PixelBytes(width, height), |pixels|))
      else Ok(Display(Framebuffer(width, height, pixels)))
  }

  // ----- The desktop's decoder -----

  /** `decodeRemoteFramebuffer`: `None` is the thrown error. Its magic is one 32-bit word. */
  function DecodeOnDesktop(data: seq<Byte>): (r: Option<Framebuffer>) {
    if |data| < 14 || |data| - 4 > 8 * 1024 * 1024
       || FromBigEndian(data[..4]) != |data| - 4 || FromBigEndian(data[4..8]) != 0x4d524642
       || FromBigEndian16(data[8], data[9]) != 2
    then None
    else
      var width, height := FromBigEndian16(data[10], data[11]), FromBigEndian16(data[12], data[13]);
      if width < 320 || height < 200 || width > 16384 || height > 16384 || width * height * 4 != |data| - 14
      then None
      else Some(Framebuffer(width, height, data[14..]))
  }

  lemma MagicWord(s: seq<Byte>)
    requires |s| == 4
    ensures FromBigEndian(s) == 0x4d524642 <==> s == FRAMEBUFFER_MAGIC
  {
    FromBigEndianRoundTrip(s);
    FromBigEndianRoundTrip(FRAMEBUFFER_MAGIC);
    FourBytes(0x4D, 0x52, 0x46, 0x42);
  }

  /** The two decoders accept exactly the same byte strings as framebuffers, with the same result. */
  lemma DecodersAgree(data: seq<Byte>, f: Framebuffer)
    ensures DecodeOnDesktop(data) == Some(f) <==> DecodeEvent(data) == Ok(Display(f))
  {
    if |data| >= 14 {
      MagicWord(data[4..8]);
      var body := data[4..];
      assert body[..4] == data[4..8];
      assert FRAMEBUFFER_MAGIC <= body <==> body[..4] == FRAMEBUFFER_MAGIC;
      assert body[FRAMEBUFFER_HEADER_BYTES..] == data[14..];
    }
  }

  // ----- Round trips -----

  lemma BodyFits(e: Event)
    ensures Encodable(e) ==> 1 <= |Body(e)| <= MAX_FRAME_BYTES
  {
    hide PixelBytes;
    if e.Display? {
      HeaderBytes(e.frame.width, e.frame.height);
    }
  }

  lemma FramedBody(body: seq<Byte>)
    requires |body| <= MAX_FRAME_BYTES
    ensures FrameBody(Framed(body)) == Ok(body) && FromBigEndian(Framed(body)[..4]) == |body|
  {
    hide BigEndian, FromBigEndian;
    BigEndianRoundTrip(|body|, 4);
    SplitConcat(BigEndian32(|body|), body);
  }

  /** `encode_event_frame` for a framebuffer: the buffer is filled field by field. */
  method EncodeFramebuffer(f: Framebuffer) returns (result: Result<seq<Byte>>)
    ensures result == if ValidateFramebuffer(f).Ok? then Ok(Encoded(Display(f))) else Err(ValidateFramebuffer(f).error)
    ensures result.Ok? ==> |result.value| <= 4 + MAX_FRAME_BYTES && FrameBody(result.value).Ok?
  {
    hide BigEndian, BigEndian16, PixelBytes, FrameBody;
    var checked := ValidateFramebuffer(f);
    if checked.Err? {
      return Err(checked.error);
    }
    BodyFits(Display(f));
    FramedBody(Body(Display(f)));
    var bodyLength := FRAMEBUFFER_HEADER_BYTES + |f.pixels|;
    var frame := BigEndian32(bodyLength);
    frame := frame + FRAMEBUFFER_MAGIC;
    frame := frame + BigEndian16(WIRE_VERSION);
    frame := frame + BigEndian16(f.width);
    frame := frame + BigEndian16(f.height);
    frame := frame + f.pixels;
    HeaderBytes(f.width, f.height);
    RegroupSix(BigEndian32(bodyLength), FRAMEBUFFER_MAGIC, BigEndian16(WIRE_VERSION),
               BigEndian16(f.width), BigEndian16(f.height), f.pixels);
    return Ok(frame);
  }

  /** A frame byte by byte, and what makes a framebuffer valid or which error it gets, in numbers. */
  lemma FrameInNumbers(f: Framebuffer)
    ensures Encoded(Display(f)) ==
            BigEndian(|f.pixels| + 10, 4)
            + [0x4D, 0x52, 0x46, 0x42, 0, 2, f.width / 256, f.width % 256, f.height / 256, f.height % 256] + f.pixels
    ensures var bytes := f.width * f.height * 4;
            ValidateFramebuffer(f) ==
            if f.width < 320 || f.width > 16384 || f.height < 200 || f.height > 16384
            then Err(InvalidDisplaySize(f.width, f.height))
            else if bytes > 8388598 then Err(FrameTooLarge(bytes))
            else if |f.pixels| != bytes then Err(InvalidFramebuffer(bytes, |f.pixels|))
            else Ok(())
  {
    hide BigEndian;
    HeaderInNumbers(f.width, f.height);
    assert |FramebufferBody(f)| == |f.pixels| + 10;
    assert Encoded(Display(f)) == BigEndian(|f.pixels| + 10, 4) + (Header(f.width, f.height) + f.pixels);
  }

  lemma HeaderInNumbers(width: U16, height: U16)
    ensures Header(width, height) ==
            [0x4D, 0x52, 0x46, 0x42, 0, 2, width / 256, width % 256, height / 256, height % 256]
  {
  }

  /** Every valid event decodes to itself; a JSON body is never taken for a framebuffer. */
  lemma EncodeDecode(e: Event)
    ensures Encodable(e) ==> DecodeEvent(Encoded(e)) == Ok(e)
  {
    hide Framed, FrameBody, PixelBytes;
    BodyFits(e);
    if Encodable(e) {
      FramedBody(Body(e));
      if e.Display? {
        FramebufferBodyDecodes(e.frame, |Encoded(e)|);
      }
    }
  }

  lemma FramebufferBodyDecodes(f: Framebuffer, frameLength: nat)
    ensures FRAMEBUFFER_MAGIC <= FramebufferBody(f)
    ensures ValidateFramebuffer(f).Ok? ==> DecodeFramebufferBody(FramebufferBody(f), frameLength) == Ok(Display(f))
  {
    HeaderBytes(f.width, f.height);
    hide Header, PixelBytes, FromBigEndian16;
    var header, body := Header(f.width, f.height), FramebufferBody(f);
    assert body[..FRAMEBUFFER_HEADER_BYTES] == header && body[FRAMEBUFFER_HEADER_BYTES..] == f.pixels;
    assert body[..4] == header[..4];
  }

  lemma AcceptedIsEncoded(frame: seq<Byte>, f: Framebuffer)
    ensures DecodeEvent(frame) == Ok(Display(f)) ==> ValidateFramebuffer(f).Ok? && Encoded(Display(f)) == frame
  {
    hide Header, PixelBytes, BigEndian, FromBigEndian, FromBigEndian16;
    if DecodeEvent(frame) == Ok(Display(f)) {
      var body := frame[4..];
      FromBigEndianRoundTrip(frame[..4]);
      var header := body[..FRAMEBUFFER_HEADER_BYTES];
      assert header[..4] == body[..4] == FRAMEBUFFER_MAGIC;
      HeaderIsDetermined(header);
      assert FramebufferBody(f) == body by { assert body == header + f.pixels; }
      assert frame == frame[..4] + body;
    }
  }

  /**
    The format is canonical: the decoder accepts a byte string as a framebuffer if and only if that
    framebuffer is valid and the byte string is its one encoding.
   */
  lemma AcceptedExactlyWhenEncoded(frame: seq<Byte>, f: Framebuffer)
    ensures DecodeEvent(frame) == Ok(Display(f)) <==> ValidateFramebuffer(f).Ok? && frame == Encoded(Display(f))
  {
    hide DecodeEvent, Encoded, ValidateFramebuffer;
    AcceptedIsEncoded(frame, f);
    EncodeDecode(Display(f));
    assert Encodable(Display(f)) == ValidateFramebuffer(f).Ok?;
  }

  /** What the helper encodes, the desktop decodes. */
  lemma DesktopDecodesHelperFrames(f: Framebuffer)
    ensures DecodeOnDesktop(Encoded(Display(f))) == Some(f) <==> ValidateFramebuffer(f).Ok?
  {
    hide DecodeEvent, Encoded, ValidateFramebuffer, DecodeOnDesktop;
    AcceptedExactlyWhenEncoded(Encoded(Display(f)), f);
    DecodersAgree(Encoded(Display(f)), f);
  }

  // ----- Reading a pipe -----

  /** `read_frame` on what a pipe will deliver before it ends: a frame and the rest, the end, or an error. */
  datatype ReadResult = Frame(frame: seq<Byte>, rest: seq<Byte>) | End | Failed(error: WireError)

  function ReadFrame(pipe: seq<Byte>): (r: ReadResult)
    ensures r.Frame? ==> |r.rest| < |pipe|
  {
    if |pipe| < 4 then End
    else
      var length := FromBigEndian(pipe[..4]);
      if length > MAX_FRAME_BYTES then Failed(FrameTooLarge(length))
      else if |pipe| < 4 + length then Failed(Io)
      else Frame(pipe[..4 + length], pipe[4 + length..])
  }

  /** All frames up to the end of the pipe or the first error. */
  function ReadFrames(pipe: seq<Byte>): (r: (seq<seq<Byte>>, ReadResult))
    decreases |pipe|
  {
    var first := ReadFrame(pipe);
    if !first.Frame? then ([], first)
    else
      var rest := ReadFrames(first.rest);
      ([first.frame] + rest.0, rest.1)
  }

  lemma ReadFirst(frame: seq<Byte>, later: seq<Byte>)
    requires FrameBody(frame).Ok?
    ensures ReadFrame(frame + later) == Frame(frame, later)
  {
    hide FromBigEndian;
    SplitConcat(frame, later);
    assert (frame + later)[..4] == frame[..4];
  }

  /** Writing frames one after another and reading them back recovers exactly those frames, whatever follows. */
  lemma {:induction false} ReadWhatWasWritten(frames: seq<seq<Byte>>, tail: seq<Byte>)
    requires forall f :: f in frames ==> FrameBody(f).Ok?
    ensures var r, after := ReadFrames(Flatten(frames) + tail), ReadFrames(tail);
            r.0 == frames + after.0 && r.1 == after.1
  {
    hide FrameBody, ReadFrame;
    if frames == [] {
      assert Flatten(frames) + tail == tail;
    } else {
      var later := Flatten(frames[1..]) + tail;
      assert Flatten(frames) + tail == frames[0] + later;
      ReadFirst(frames[0], later);
      ReadWhatWasWritten(frames[1..], tail);
      assert [frames[0]] + (frames[1..] + ReadFrames(tail).0) == frames + ReadFrames(tail).0;
    }
  }

  /** ... so that every valid event that was written is decoded again, in its place. */
  lemma {:induction false} EventsAreRecovered(events: seq<Event>, tail: seq<Byte>)
    requires forall e :: e in events ==> Encodable(e)
    ensures var r := ReadFrames(FlatMap(Encoded, events) + tail);
            var after := ReadFrames(tail);
            && |r.0| == |events| + |after.0| && r.1 == after.1
            && (forall i :: 0 <= i < |events| ==> DecodeEvent(r.0[i]) == Ok(events[i]))
            && r.0[|events|..] == after.0
  {
    hide Framed, Body, Encodable, DecodeEvent, ReadFrame, FrameBody;
    if events == [] {
      assert FlatMap(Encoded, events) + tail == tail;
    } else {
      var frame := Encoded(events[0]);
      var later := FlatMap(Encoded, events[1..]) + tail;
      assert FlatMap(Encoded, events) + tail == frame + later;
      BodyFits(events[0]);
      FramedBody(Body(events[0]));
      EncodeDecode(events[0]);
      ReadFirst(frame, later);
      EventsAreRecovered(events[1..], tail);
    }
  }

  /** A reader never accepts a frame that the frame decoder would call truncated or too large. */
  lemma ReadFramesAreWhole(pipe: seq<Byte>)
    requires ReadFrame(pipe).Frame?
    ensures FrameBody(ReadFrame(pipe).frame).Ok?
    ensures ReadFrame(pipe).frame + ReadFrame(pipe).rest == pipe
  {
    assert ReadFrame(pipe).frame[..4] == pipe[..4];
  }

  /**
    Which frames the decoder and the reader refuse, and how, from the four length bytes: a length of more
    than 8 MiB always; the decoder any frame that is not exactly that long, the reader a pipe that ends early.
   */
  lemma RefusalsInNumbers(s: seq<Byte>)
    ensures |s| < 4 ==> FrameBody(s) == Err(TruncatedFrame(4, |s|)) && ReadFrame(s) == End
    ensures |s| >= 4 ==>
              var a: int, b: int, c: int, d: int := s[0], s[1], s[2], s[3];
              var length := 0x100_0000 * a + 0x1_0000 * b + 0x100 * c + d;
              if length > 8388608 then
                FrameBody(s) == Err(FrameTooLarge(length)) && ReadFrame(s) == Failed(FrameTooLarge(length))
              else
                && FrameBody(s) == (if |s| == 4 + length then Ok(s[4..]) else Err(TruncatedFrame(4 + length, |s|)))
                && ReadFrame(s) == if |s| >= 4 + length then Frame(s[..4 + length], s[4 + length..]) else Failed(Io)
  {
    if |s| >= 4 {
      FourBytes(s[0], s[1], s[2], s[3]);
      assert s[..4] == [s[0], s[1], s[2], s[3]];
    }
  }

  /** Why a frame with the framebuffer magic is refused: too short, another version, its size, or its pixels. */
  lemma FramebufferRefusals(frame: seq<Byte>)
    requires FrameBody(frame).Ok? && |frame| >= 8 && frame[4..8] == [0x4D, 0x52, 0x46, 0x42]
    ensures |frame| < 14 ==> DecodeEvent(frame) == Err(TruncatedFrame(14, |frame|))
    ensures |frame| >= 14 ==>
              var v: int, v': int, w: int, w': int, h: int, h': int :=
                frame[8], frame[9], frame[10], frame[11], frame[12], frame[13];
              var version, width, height := 256 * v + v', 256 * w + w', 256 * h + h';
              var size := width * height * 4;
              DecodeEvent(frame) ==
              if version != 2 then Err(UnsupportedVersion(version))
              else if width < 320 || width > 16384 || height < 200 || height > 16384
              then Err(InvalidDisplaySize(width, height))
              else if size > 8388598 then Err(FrameTooLarge(size))
              else if |frame| - 14 != size then Err(InvalidFramebuffer(size, |frame| - 14))
              else Ok(Display(Framebuffer(width, height, frame[14..])))
  {
    hide FromBigEndian;
    var body := frame[4..];
    assert body[..4] == frame[4..8];
    assert FRAMEBUFFER_MAGIC <= body;
    if |frame| >= 14 {
      assert body[10..] == frame[14..];
    }
  }

  /** What a pipe will still deliver before its end. */
  class Pipe {
    var unread: seq<Byte>

    constructor (bytes: seq<Byte>)
      ensures unread == bytes
    {
      unread := bytes;
    }

    /** `read_exact`: all of `count` bytes, or the rest of the pipe and failure. */
    method ReadExact(count: nat) returns (ok: bool, bytes: seq<Byte>)
      modifies this
      ensures ok <==> count <= |old(unread)|
      ensures bytes + unread == old(unread)
      ensures if ok then |bytes| == count else unread == []
    {
      ok := count <= |unread|;
      bytes := if ok then unread[..count] else unread;
      unread := unread[|bytes|..];
    }

    /** `read_frame`: the length first, then, if it is within bounds, a buffer filled behind it. */
    method ReadNextFrame() returns (r: ReadResult)
      modifies this
      ensures r == ReadFrame(old(unread))
      ensures r.Frame? ==> unread == r.rest
    {
      hide FromBigEndian;
      var ok, lengthBytes := ReadExact(4);
      if !ok {
        return End;
      }
      assert lengthBytes == old(unread)[..4];
      var bodyLength := FromBigEndian(lengthBytes);
      if bodyLength > MAX_FRAME_BYTES {
        return Failed(FrameTooLarge(bodyLength));
      }
      var frame := lengthBytes;
      var body;
      ok, body := ReadExact(bodyLength);
      if !ok {
        return Failed(Io);
      }
      frame := frame + body;
      assert old(unread) == frame + unread;
      SplitConcat(frame, unread);
      return Frame(frame, unread);
    }
  }
}
