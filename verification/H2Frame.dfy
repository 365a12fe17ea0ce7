/** The HTTP/2 frame codec (sections 4.1 and 6 of RFC 9113) and the framing of whole streams. */
module H2Frame {
  import opened Basics
  import opened Framing

  type u16 = x: int | 0 <= x < 0x1_0000
  type u32 = x: int | 0 <= x < 0x1_0000_0000

  const SID_LIMIT: int := 0x8000_0000

  datatype Param = Param(id: u16, value: u32)

  datatype Frame =
    | Data(streamId: u32, payload: bytes, endStream: bool)
    | Headers(streamId: u32, block: bytes, endStream: bool, endHeaders: bool)
    | Priority(streamId: u32, dependency: u32, weight: byte, exclusive: bool)
    | RstStream(streamId: u32, errorCode: u32)
    | Settings(ack: bool, params: seq<Param>)
    | PushPromise(streamId: u32, promisedId: u32, block: bytes)
    | Ping(ack: bool, data: bytes)
    | GoAway(lastStreamId: u32, errorCode: u32, debug: bytes)
    | WindowUpdate(streamId: u32, increment: u32)
    | Continuation(streamId: u32, block: bytes, endHeaders: bool)
    | Unknown(frameType: byte, streamId: u32, flags: byte, payload: bytes)

  datatype FrameError = Incomplete | FrameTooLarge(size: nat, limit: nat) | InvalidFrame

  // ----- big-endian numbers

  function WriteU32(x: u32): (r: bytes)
    ensures |r| == 4
  {
    [x / 0x100_0000, x / 0x1_0000 % 256, x / 256 % 256, x % 256]
  }

  function ReadU32(b: bytes): u32
    requires |b| >= 4
  {
    (b[0] as int) * 0x100_0000 + (b[1] as int) * 0x1_0000 + (b[2] as int) * 256 + (b[3] as int)
  }

  function WriteU16(x: u16): (r: bytes)
    ensures |r| == 2
  {
    [x / 256, x % 256]
  }

  function ReadU16(b: bytes): u16
    requires |b| >= 2
  {
    (b[0] as int) * 256 + (b[1] as int)
  }

  lemma U32RoundTrip(x: u32, rest: bytes)
    ensures ReadU32(WriteU32(x) + rest) == x
  {
    var b3, q3 := x % 256, x / 256;
    var b2, q2 := q3 % 256, q3 / 256;
    var b1, q1 := q2 % 256, q2 / 256;
    assert q2 == x / 0x1_0000 && q1 == x / 0x100_0000;
  }

  lemma U16RoundTrip(x: u16, rest: bytes)
    ensures ReadU16(WriteU16(x) + rest) == x
  {
  }

  /** Clears the reserved top bit. */
  function Low31(x: u32): u32 {
    x % SID_LIMIT
  }

  predicate Bit(flags: byte, mask: nat)
    requires mask in {1, 4, 8, 32}
  {
    flags / mask % 2 == 1
  }

  // ----- the frame header

  datatype FrameHeader = FrameHeader(length: nat, frameType: byte, flags: byte, streamId: u32)

  function WriteHeader(h: FrameHeader): (r: bytes)
    requires h.length < 0x100_0000
    ensures |r| == 9
  {
    [h.length / 0x1_0000, h.length / 256 % 256, h.length % 256, h.frameType, h.flags] + WriteU32(Low31(h.streamId))
  }

  function ParseHeader(buf: bytes): Result<FrameHeader, FrameError> {
    if |buf| < 9 then Err(Incomplete)
    else Ok(FrameHeader((buf[0] as int) * 0x1_0000 + (buf[1] as int) * 256 + (buf[2] as int),
                        buf[3], buf[4], Low31(ReadU32(buf[5..9]))))
  }

  lemma HeaderRoundTrip(h: FrameHeader, rest: bytes)
    requires h.length < 0x100_0000
    ensures ParseHeader(WriteHeader(h) + rest) == Ok(h.(streamId := Low31(h.streamId)))
  {
    var wire := WriteHeader(h) + rest;
    var id := WriteU32(Low31(h.streamId));
    assert wire[5..9] == id + [];
    U32RoundTrip(Low31(h.streamId), []);
    var b2, q2 := h.length % 256, h.length / 256;
    assert h.length == q2 / 256 * 0x1_0000 + q2 % 256 * 256 + b2;
    assert q2 / 256 == h.length / 0x1_0000;
  }

  // ----- payloads

  function WriteParams(params: seq<Param>): (r: bytes)
    ensures |r| == 6 * |params|
  {
    if params == [] then [] else WriteU16(params[0].id) + WriteU32(params[0].value) + WriteParams(params[1..])
  }

  function ReadParams(payload: bytes): seq<Param> {
    if |payload| < 6 then []
    else [Param(ReadU16(payload), ReadU32(payload[2..6]))] + ReadParams(payload[6..])
  }

  function FrameType(f: Frame): byte {
    match f
    case Data(_, _, _) => 0
    case Headers(_, _, _, _) => 1
    case Priority(_, _, _, _) => 2
    case RstStream(_, _) => 3
    case Settings(_, _) => 4
    case PushPromise(_, _, _) => 5
    case Ping(_, _) => 6
    case GoAway(_, _, _) => 7
    case WindowUpdate(_, _) => 8
    case Continuation(_, _, _) => 9
    case Unknown(t, _, _, _) => t
  }

  function Flags(f: Frame): byte {
    match f
    case Data(_, _, end) => if end then 1 else 0
    case Headers(_, _, end, endHeaders) => (if end then 1 else 0) + (if endHeaders then 4 else 0)
    case Settings(ack, _) => if ack then 1 else 0
    case Ping(ack, _) => if ack then 1 else 0
    case Continuation(_, _, endHeaders) => if endHeaders then 4 else 0
    case Unknown(_, _, flags, _) => flags
    case _ => 0
  }

  function StreamId(f: Frame): u32 {
    match f
    case Settings(_, _) => 0
    case Ping(_, _) => 0
    case GoAway(_, _, _) => 0
    case _ => f.streamId
  }

  function Payload(f: Frame): bytes {
    match f
    case Data(_, payload, _) => payload
    case Headers(_, block, _, _) => block
    case Priority(_, dependency, weight, exclusive) =>
      WriteU32(if exclusive && dependency < SID_LIMIT then dependency + SID_LIMIT else dependency) + [weight]
    case RstStream(_, code) => WriteU32(code)
    case Settings(_, params) => WriteParams(params)
    case PushPromise(_, promised, block) => WriteU32(Low31(promised)) + block
    case Ping(_, data) => data
    case GoAway(last, code, debug) => WriteU32(Low31(last)) + WriteU32(code) + debug
    case WindowUpdate(_, increment) => WriteU32(Low31(increment))
    case Continuation(_, block, _) => block
    case Unknown(_, _, _, payload) => payload
  }

  /** `encode_frame`: only a payload beyond 24 bits of length cannot be encoded. */
  function EncodeFrame(f: Frame): Result<bytes, FrameError> {
    var payload := Payload(f);
    if |payload| > 0xFF_FFFF then Err(InvalidFrame)
    else Ok(WriteHeader(FrameHeader(|payload|, FrameType(f), Flags(f), StreamId(f))) + payload)
  }

  /** `strip_padding`: a pad length, the content, that much padding. */
  function StripPadding(payload: bytes): Result<bytes, FrameError> {
    if payload == [] || payload[0] + 1 > |payload| then Err(InvalidFrame)
    else Ok(payload[1..|payload| - payload[0]])
  }

  function Unpadded(flags: byte, payload: bytes): Result<bytes, FrameError> {
    if Bit(flags, 8) then StripPadding(payload) else Ok(payload)
  }

  function DecodeData(flags: byte, sid: u32, payload: bytes): Result<Frame, FrameError> {
    match Unpadded(flags, payload)
    case Err(e) => Err(e)
    case Ok(content) => Ok(Data(sid, content, Bit(flags, 1)))
  }

  function DecodeHeaders(flags: byte, sid: u32, payload: bytes): Result<Frame, FrameError> {
    match Unpadded(flags, payload)
    case Err(e) => Err(e)
    case Ok(content) =>
      if Bit(flags, 32) && |content| < 5 then Err(InvalidFrame)
      else Ok(Headers(sid, if Bit(flags, 32) then content[5..] else content, Bit(flags, 1), Bit(flags, 4)))
  }

  function DecodeSettings(flags: byte, payload: bytes): Result<Frame, FrameError> {
    if Bit(flags, 1) && payload != [] then Err(InvalidFrame)
    else if |payload| % 6 != 0 then Err(InvalidFrame)
    else Ok(Settings(Bit(flags, 1), ReadParams(payload)))
  }

  function DecodePriority(sid: u32, payload: bytes): Result<Frame, FrameError> {
    if |payload| != 5 then Err(InvalidFrame)
    else Ok(Priority(sid, Low31(ReadU32(payload)), payload[4], ReadU32(payload) >= SID_LIMIT))
  }

  function DecodeRstStream(sid: u32, payload: bytes): Result<Frame, FrameError> {
    if |payload| != 4 then Err(InvalidFrame) else Ok(RstStream(sid, ReadU32(payload)))
  }

  function DecodePushPromise(sid: u32, payload: bytes): Result<Frame, FrameError> {
    if |payload| < 4 then Err(InvalidFrame) else Ok(PushPromise(sid, Low31(ReadU32(payload)), payload[4..]))
  }

  function DecodePing(flags: byte, payload: bytes): Result<Frame, FrameError> {
    if |payload| != 8 then Err(InvalidFrame) else Ok(Ping(Bit(flags, 1), payload))
  }

  function DecodeGoAway(payload: bytes): Result<Frame, FrameError> {
    if |payload| < 8 then Err(InvalidFrame)
    else Ok(GoAway(Low31(ReadU32(payload)), ReadU32(payload[4..]), payload[8..]))
  }

  function DecodeWindowUpdate(sid: u32, payload: bytes): Result<Frame, FrameError> {
    if |payload| != 4 then Err(InvalidFrame) else Ok(WindowUpdate(sid, Low31(ReadU32(payload))))
  }

  /** The frame a header and its payload stand for. */
  function DecodePayload(h: FrameHeader, payload: bytes): Result<Frame, FrameError> {
    if h.frameType == 0 then DecodeData(h.flags, h.streamId, payload)
    else if h.frameType == 1 then DecodeHeaders(h.flags, h.streamId, payload)
    else if h.frameType == 2 then DecodePriority(h.streamId, payload)
    else if h.frameType == 3 then DecodeRstStream(h.streamId, payload)
    else if h.frameType == 4 then DecodeSettings(h.flags, payload)
    else if h.frameType == 5 then DecodePushPromise(h.streamId, payload)
    else if h.frameType == 6 then DecodePing(h.flags, payload)
    else if h.frameType == 7 then DecodeGoAway(payload)
    else if h.frameType == 8 then DecodeWindowUpdate(h.streamId, payload)
    else if h.frameType == 9 then Ok(Continuation(h.streamId, payload, Bit(h.flags, 4)))
    else Ok(Unknown(h.frameType, h.streamId, h.flags, payload))
  }

  /** `decode_frame`: one frame off the front of `buf`, and the octets it took. */
  function DecodeFrame(buf: bytes, maxFrameSize: nat): (r: Result<(Frame, nat), FrameError>)
    ensures r.Ok? ==> 9 <= r.value.1 <= |buf|
  {
    match ParseHeader(buf)
    case Err(e) => Err(e)
    case Ok(h) =>
      if h.length > maxFrameSize then Err(FrameTooLarge(h.length, maxFrameSize))
      else if |buf| < 9 + h.length then Err(Incomplete)
      else
        match DecodePayload(h, buf[9..9 + h.length])
        case Err(e) => Err(e)
        case Ok(f) => Ok((f, 9 + h.length))
  }

  // ----- one frame

  /** Frames the wire format carries without loss. */
  ghost predicate WellFormed(f: Frame) {
    && StreamId(f) < SID_LIMIT
    && match f
       case Priority(_, dependency, _, _) => dependency < SID_LIMIT
       case Settings(ack, params) => ack ==> params == []
       case PushPromise(_, promised, _) => promised < SID_LIMIT
       case Ping(_, data) => |data| == 8
       case GoAway(last, _, _) => last < SID_LIMIT
       case WindowUpdate(_, increment) => increment < SID_LIMIT
       case Unknown(t, _, _, _) => t > 9
       case _ => true
  }

  function HeaderOf(f: Frame): FrameHeader {
    FrameHeader(|Payload(f)|, FrameType(f), Flags(f), StreamId(f))
  }

  lemma {:induction false} ParamsRoundTrip(params: seq<Param>)
    ensures ReadParams(WriteParams(params)) == params
  {
    if params != [] {
      var head := WriteU16(params[0].id) + WriteU32(params[0].value);
      var wire := WriteParams(params);
      assert wire == head + WriteParams(params[1..]);
      assert wire == WriteU16(params[0].id) + (WriteU32(params[0].value) + WriteParams(params[1..]));
      U16RoundTrip(params[0].id, WriteU32(params[0].value) + WriteParams(params[1..]));
      assert wire[2..6] == WriteU32(params[0].value) + [];
      U32RoundTrip(params[0].value, []);
      assert wire[6..] == WriteParams(params[1..]);
      ParamsRoundTrip(params[1..]);
    }
  }

  lemma TopBit(x: u32)
    requires x < SID_LIMIT
    ensures Low31(x) == x && Low31(x + SID_LIMIT) == x
  {
  }

  lemma PriorityRoundTrip(sid: u32, dependency: u32, weight: byte, exclusive: bool)
    requires dependency < SID_LIMIT
    ensures var f := Priority(sid, dependency, weight, exclusive);
      DecodePriority(sid, Payload(f)) == Ok(f)
  {
    var raw := if exclusive then dependency + SID_LIMIT else dependency;
    U32RoundTrip(raw, [weight]);
    TopBit(dependency);
  }

  lemma PushPromiseRoundTrip(sid: u32, promised: u32, block: bytes)
    requires promised < SID_LIMIT
    ensures DecodePushPromise(sid, WriteU32(promised) + block) == Ok(PushPromise(sid, promised, block))
  {
    U32RoundTrip(promised, block);
    Seam(WriteU32(promised), block);
  }

  lemma NumberRoundTrip(sid: u32, x: u32)
    ensures DecodeRstStream(sid, WriteU32(x)) == Ok(RstStream(sid, x))
    ensures x < SID_LIMIT ==> DecodeWindowUpdate(sid, WriteU32(x)) == Ok(WindowUpdate(sid, x))
  {
    U32RoundTrip(x, []);
    assert WriteU32(x) + [] == WriteU32(x);
  }

  lemma GoAwayRoundTrip(last: u32, code: u32, debug: bytes)
    requires last < SID_LIMIT
    ensures DecodeGoAway(WriteU32(last) + WriteU32(code) + debug) == Ok(GoAway(last, code, debug))
  {
    var a, b := WriteU32(last), WriteU32(code);
    Associative(a, b, debug);
    U32RoundTrip(last, b + debug);
    Seam(a, b + debug);
    U32RoundTrip(code, debug);
    Middle(a, b, debug);
  }

  /** Frames whose payload is carried as it is: only the flags are read back. */
  lemma PlainRoundTrip(f: Frame)
    requires WellFormed(f) && (f.Data? || f.Headers? || f.Ping? || f.Continuation? || f.Unknown?)
    ensures DecodePayload(HeaderOf(f), Payload(f)) == Ok(f)
  {
  }

  lemma SettingsRoundTrip(f: Frame)
    requires WellFormed(f) && f.Settings?
    ensures DecodePayload(HeaderOf(f), Payload(f)) == Ok(f)
  {
    ParamsRoundTrip(f.params);
  }

  lemma NumberFrames(f: Frame)
    requires WellFormed(f) && (f.RstStream? || f.WindowUpdate?)
    ensures DecodePayload(HeaderOf(f), Payload(f)) == Ok(f)
  {
    var x := if f.RstStream? then f.errorCode else f.increment;
    if f.WindowUpdate? { TopBit(x); }
    NumberRoundTrip(f.streamId, x);
  }

  lemma IdFrames(f: Frame)
    requires WellFormed(f) && (f.GoAway? || f.PushPromise?)
    ensures DecodePayload(HeaderOf(f), Payload(f)) == Ok(f)
  {
    if f.GoAway? {
      TopBit(f.lastStreamId);
      GoAwayRoundTrip(f.lastStreamId, f.errorCode, f.debug);
    } else {
      TopBit(f.promisedId);
      PushPromiseRoundTrip(f.streamId, f.promisedId, f.block);
    }
  }

  /** A well-formed frame's payload decodes to that frame. */
  lemma PayloadRoundTrip(f: Frame)
    requires WellFormed(f)
    ensures DecodePayload(HeaderOf(f), Payload(f)) == Ok(f)
  {
    if f.Settings? {
      SettingsRoundTrip(f);
    } else if f.GoAway? || f.PushPromise? {
      IdFrames(f);
    } else if f.RstStream? || f.WindowUpdate? {
      NumberFrames(f);
    } else if f.Priority? {
      PriorityRoundTrip(f.streamId, f.dependency, f.weight, f.exclusive);
    } else {
      PlainRoundTrip(f);
    }
  }

  /** Whatever the octets, a decoded frame is well formed. */
  lemma DecodedIsWellFormed(buf: bytes, max: nat)
    requires DecodeFrame(buf, max).Ok?
    ensures WellFormed(DecodeFrame(buf, max).value.0)
  {
    var h := ParseHeader(buf).value;
    if h.frameType == 4 && Bit(h.flags, 1) {
      assert ReadParams([]) == [];
    }
  }

  lemma IdFits(f: Frame)
    requires StreamId(f) < SID_LIMIT
    ensures HeaderOf(f).(streamId := Low31(StreamId(f))) == HeaderOf(f)
  {
    TopBit(StreamId(f));
  }

  /** A well-formed frame within the limit decodes to itself, taking exactly its own octets. */
  lemma FrameRoundTrip(f: Frame, max: nat, rest: bytes)
    requires WellFormed(f) && |Payload(f)| <= max && |Payload(f)| <= 0xFF_FFFF
    ensures EncodeFrame(f).Ok?
    ensures DecodeFrame(EncodeFrame(f).value + rest, max) == Ok((f, |EncodeFrame(f).value|))
  {
    var header, payload := WriteHeader(HeaderOf(f)), Payload(f);
    Associative(header, payload, rest);
    HeaderRoundTrip(HeaderOf(f), payload + rest);
    Middle(header, payload, rest);
    IdFits(f);
    PayloadRoundTrip(f);
  }

  /** Within the limits the wire form is faithful exactly for the well-formed frames. */
  lemma RoundTripIffWellFormed(f: Frame, max: nat, rest: bytes)
    requires |Payload(f)| <= max && |Payload(f)| <= 0xFF_FFFF
    ensures EncodeFrame(f).Ok?
    ensures DecodeFrame(EncodeFrame(f).value + rest, max) == Ok((f, |EncodeFrame(f).value|)) <==> WellFormed(f)
  {
    if WellFormed(f) {
      FrameRoundTrip(f, max, rest);
    } else if DecodeFrame(EncodeFrame(f).value + rest, max).Ok? {
      DecodedIsWellFormed(EncodeFrame(f).value + rest, max);
    }
  }

  /** Beyond the receiver's limit the frame is refused by size alone. */
  lemma OversizedRefused(f: Frame, max: nat, rest: bytes)
    requires max < |Payload(f)| <= 0xFF_FFFF
    ensures DecodeFrame(EncodeFrame(f).value + rest, max) == Err(FrameTooLarge(|Payload(f)|, max))
  {
    assert EncodeFrame(f).value + rest == WriteHeader(HeaderOf(f)) + (Payload(f) + rest);
    HeaderRoundTrip(HeaderOf(f), Payload(f) + rest);
  }

  /** A strict prefix of a frame is never an error and never a frame. */
  lemma PartialFrame(f: Frame, max: nat, n: nat)
    requires |Payload(f)| <= max && |Payload(f)| <= 0xFF_FFFF
    requires n < |EncodeFrame(f).value|
    ensures DecodeFrame(EncodeFrame(f).value[..n], max) == Err(Incomplete)
  {
    var wire := EncodeFrame(f).value;
    if n >= 9 {
      assert wire[..n] == WriteHeader(HeaderOf(f)) + Payload(f)[..n - 9];
      HeaderRoundTrip(HeaderOf(f), Payload(f)[..n - 9]);
    }
  }

  // ----- padding

  /** Padding is transparent: a padded DATA or HEADERS payload decodes as the unpadded one. */
  lemma PaddingTransparent(h: FrameHeader, content: bytes, padding: bytes)
    requires h.frameType <= 1 && !Bit(h.flags, 8) && |padding| < 256
    ensures DecodePayload(h.(flags := h.flags + 8), [|padding|] + content + padding) == DecodePayload(h, content)
  {
    var padded := [|padding|] + content + padding;
    assert StripPadding(padded) == Ok(content);
    PaddedFlag(h.flags);
  }

  /** The header and payload of a padded DATA or HEADERS frame. */
  function PaddedWire(h: FrameHeader, content: bytes, padding: bytes): bytes
    requires h.flags + 8 < 256 && |padding| < 256 && 1 + |content| + |padding| < 0x100_0000
  {
    WriteHeader(h.(length := 1 + |content| + |padding|, flags := h.flags + 8)) + ([|padding|] + content + padding)
  }

  /** A written header and payload within the limit decode as that payload under that header. */
  lemma WireDecodes(h: FrameHeader, payload: bytes, max: nat, rest: bytes)
    requires h.length == |payload| <= max && |payload| < 0x100_0000 && h.streamId < SID_LIMIT
    ensures DecodeFrame(WriteHeader(h) + payload + rest, max) == WithLength(DecodePayload(h, payload), 9 + |payload|)
  {
    var header := WriteHeader(h);
    Associative(header, payload, rest);
    HeaderRoundTrip(h, payload + rest);
    TopBit(h.streamId);
    Middle(header, payload, rest);
  }

  /** A decoded frame with the octets it took. */
  function WithLength(r: Result<Frame, FrameError>, used: nat): Result<(Frame, nat), FrameError> {
    match r
    case Ok(f) => Ok((f, used))
    case Err(e) => Err(e)
  }

  /**
   * On the wire: with its longer length field within the limit, a padded DATA or HEADERS frame decodes
   * to the same frame, or the same error, as the unpadded one, and takes exactly its own octets.
   */
  lemma PaddedFrameDecodes(h: FrameHeader, content: bytes, padding: bytes, max: nat, rest: bytes)
    requires h.frameType <= 1 && !Bit(h.flags, 8) && |padding| < 256 && h.streamId < SID_LIMIT
    requires h.length == |content| && 1 + |content| + |padding| <= max && 1 + |content| + |padding| < 0x100_0000
    ensures h.flags + 8 < 256
    ensures
      var plain := DecodeFrame(WriteHeader(h) + content + rest, max);
      var padded := DecodeFrame(PaddedWire(h, content, padding) + rest, max);
      if plain.Ok? then padded == Ok((plain.value.0, |PaddedWire(h, content, padding)|)) else padded == plain
  {
    PaddedFlag(h.flags);
    PaddingTransparent(h, content, padding);
    WireDecodes(h, content, max, rest);
    var payload := [|padding|] + content + padding;
    WireDecodes(h.(length := |payload|, flags := h.flags + 8), payload, max, rest);
    SameButForLength(h, payload);
  }

  lemma SameButForLength(h: FrameHeader, payload: bytes)
    requires h.flags + 8 < 256
    ensures DecodePayload(h.(length := |payload|, flags := h.flags + 8), payload)
         == DecodePayload(h.(flags := h.flags + 8), payload)
  {
  }

  lemma PaddedFlag(flags: byte)
    requires !Bit(flags, 8)
    ensures flags + 8 < 256 && Bit(flags + 8, 8)
    ensures Bit(flags + 8, 1) == Bit(flags, 1) && Bit(flags + 8, 4) == Bit(flags, 4)
    ensures Bit(flags + 8, 32) == Bit(flags, 32)
  {
    var q := flags / 8;
    assert (flags + 8) / 8 == q + 1;
    assert q % 2 == 0;
    assert (flags + 8) / 4 == flags / 4 + 2;
    assert (flags + 8) / 32 == (q + 1) / 4 && flags / 32 == q / 4;
  }

  /** Padding is refused exactly when the payload has no pad length or the pad length overruns it. */
  lemma PaddingRefused(payload: bytes)
    ensures StripPadding(payload).Err? <==> forall content: bytes, padding: bytes ::
              |padding| < 256 ==> payload != [|padding|] + content + padding
  {
    if payload != [] && payload[0] + 1 <= |payload| {
      var n := payload[0];
      var content, padding := payload[1..|payload| - n], payload[|payload| - n..];
      assert payload == [|padding|] + content + padding;
    }
  }

  // ----- priority fields

  /** Five octets of priority before a header block are skipped: the frame is the same. */
  lemma PrioritySkipped(h: FrameHeader, priority: bytes, block: bytes)
    requires h.frameType == 1 && !Bit(h.flags, 8) && !Bit(h.flags, 32) && |priority| == 5
    ensures h.flags + 32 < 256
    ensures DecodePayload(h.(flags := h.flags + 32), priority + block) == DecodePayload(h, block)
  {
    PriorityFlag(h.flags);
    Seam(priority, block);
  }

  lemma PriorityFlag(flags: byte)
    requires !Bit(flags, 8) && !Bit(flags, 32)
    ensures flags + 32 < 256 && Bit(flags + 32, 32) && !Bit(flags + 32, 8)
    ensures Bit(flags + 32, 1) == Bit(flags, 1) && Bit(flags + 32, 4) == Bit(flags, 4)
  {
    var q := flags / 32;
    assert (flags + 32) / 32 == q + 1 && q % 2 == 0;
    assert (flags + 32) / 8 == flags / 8 + 4 && (flags + 32) / 4 == flags / 4 + 8;
  }

  /** With fewer than five octets such a frame is malformed. */
  lemma PriorityTooShort(h: FrameHeader, payload: bytes)
    requires h.frameType == 1 && !Bit(h.flags, 8) && Bit(h.flags, 32) && |payload| < 5
    ensures DecodePayload(h, payload) == Err(InvalidFrame)
  {
  }

  // ----- what is accepted

  /** The payload lengths of section 6 of RFC 9113, for the frames without padding or priority fields. */
  predicate LengthAllowed(h: FrameHeader, n: nat) {
    match h.frameType
    case 2 => n == 5
    case 3 => n == 4
    case 4 => n % 6 == 0 && (h.flags % 2 == 1 ==> n == 0)
    case 5 => n >= 4
    case 6 => n == 8
    case 7 => n >= 8
    case 8 => n == 4
    case _ => true
  }

  /** Apart from padding and priority fields, length alone decides whether a payload is accepted. */
  lemma AcceptedIff(h: FrameHeader, payload: bytes)
    requires h.frameType <= 1 ==> !Bit(h.flags, 8) && !Bit(h.flags, 32)
    ensures DecodePayload(h, payload) == Err(InvalidFrame) <==> !LengthAllowed(h, |payload|)
    ensures DecodePayload(h, payload).Ok? <==> LengthAllowed(h, |payload|)
  {
  }

  // ----- the layout on the wire

  /** Numbers are written with their most significant octet first. */
  lemma BigEndian()
    ensures WriteU32(0x01020304) == [1, 2, 3, 4] && WriteU16(0x0102) == [1, 2]
  {
  }

  /** The type octet of each frame, and what its flags say (section 6 of RFC 9113). */
  ghost predicate TypeAndFlags(f: Frame, frameType: byte, flags: byte) {
    match f
    case Data(_, _, end) => frameType == 0 && flags == if end then 0x1 else 0
    case Headers(_, _, end, all) => frameType == 1 && flags == (if end then 0x1 else 0) + (if all then 0x4 else 0)
    case Priority(_, _, _, _) => frameType == 2 && flags == 0
    case RstStream(_, _) => frameType == 3 && flags == 0
    case Settings(ack, _) => frameType == 4 && flags == if ack then 0x1 else 0
    case PushPromise(_, _, _) => frameType == 5 && flags == 0
    case Ping(ack, _) => frameType == 6 && flags == if ack then 0x1 else 0
    case GoAway(_, _, _) => frameType == 7 && flags == 0
    case WindowUpdate(_, _) => frameType == 8 && flags == 0
    case Continuation(_, _, all) => frameType == 9 && flags == if all then 0x4 else 0
    case Unknown(t, _, fl, _) => frameType == t && flags == fl
  }

  /** Nine octets of header: 24 bits of length, type, flags, stream id (0 for the connection); then the payload. */
  lemma WireLayout(f: Frame)
    requires |Payload(f)| < 0x100_0000
    ensures var wire := Wire(f);
      && |wire| == 9 + |Payload(f)| && wire[9..] == Payload(f)
      && (wire[0] as int) * 0x1_0000 + (wire[1] as int) * 256 + (wire[2] as int) == |Payload(f)|
      && TypeAndFlags(f, wire[3], wire[4])
      && wire[5..9] == WriteU32((if f.Settings? || f.Ping? || f.GoAway? then 0 else f.streamId) % 0x8000_0000)
  {
    var h := HeaderOf(f);
    HeaderRoundTrip(h, Payload(f));
    assert Wire(f) == WriteHeader(h) + Payload(f);
    Seam(WriteHeader(h), Payload(f));
  }

  /** The order of the fields inside the payloads that have several. */
  lemma PayloadLayout(f: Frame)
    ensures f.GoAway? ==> Payload(f) == WriteU32(f.lastStreamId % 0x8000_0000) + WriteU32(f.errorCode) + f.debug
    ensures f.PushPromise? ==> Payload(f) == WriteU32(f.promisedId % 0x8000_0000) + f.block
    ensures f.Priority? && f.dependency < 0x8000_0000 ==>
              Payload(f) == WriteU32(f.dependency + if f.exclusive then 0x8000_0000 else 0) + [f.weight]
    ensures f.Settings? && f.params != [] ==>
              Payload(f) == WriteU16(f.params[0].id) + WriteU32(f.params[0].value)
                            + Payload(f.(params := f.params[1..]))
  {
  }

  // ----- whole streams

  ghost predicate Sendable(f: Frame, max: nat) {
    WellFormed(f) && |Payload(f)| <= max && |Payload(f)| <= 0xFF_FFFF
  }

  ghost predicate AllSendable(frames: seq<Frame>, max: nat) {
    forall i :: 0 <= i < |frames| ==> Sendable(frames[i], max)
  }

  /** The octets of a frame; a frame too long to encode has none. */
  function Wire(f: Frame): bytes {
    match EncodeFrame(f) case Ok(wire) => wire case Err(_) => []
  }

  function Decoder(max: nat): bytes -> Result<(Frame, nat), FrameError> {
    (buf: bytes) => DecodeFrame(buf, max)
  }

  lemma SendableIsFramed(f: Frame, max: nat)
    requires Sendable(f, max)
    ensures Framed(Wire, Decoder(max), Incomplete, f)
  {
    forall rest: bytes ensures Decoder(max)(Wire(f) + rest) == Ok((f, |Wire(f)|)) {
      FrameRoundTrip(f, max, rest);
    }
    forall n | 0 <= n < |Wire(f)| ensures Decoder(max)(Wire(f)[..n]) == Err(Incomplete) {
      PartialFrame(f, max, n);
    }
  }

  /** Decoding the concatenated encodings of sendable frames returns exactly the sequence. */
  lemma StreamRoundTrip(frames: seq<Frame>, max: nat)
    requires AllSendable(frames, max)
    ensures DecodeAll(Decoder(max), EncodeAll(Wire, frames)) == (frames, Some(Incomplete), [])
  {
    forall i | 0 <= i < |frames| ensures Framed(Wire, Decoder(max), Incomplete, frames[i]) {
      SendableIsFramed(frames[i], max);
    }
    WholeStream(Wire, Decoder(max), Incomplete, frames);
  }

  /** Every prefix of the stream yields exactly its complete frames, then Incomplete. */
  lemma StreamPrefix(frames: seq<Frame>, max: nat, n: nat)
    requires AllSendable(frames, max) && n <= |EncodeAll(Wire, frames)|
    ensures exists k: nat :: CompleteUpTo(Wire, Decoder(max), Incomplete, frames, n, k)
  {
    forall i | 0 <= i < |frames| ensures Framed(Wire, Decoder(max), Incomplete, frames[i]) {
      SendableIsFramed(frames[i], max);
    }
    var k := EveryPrefix(Wire, Decoder(max), Incomplete, frames, n);
  }

  // ----- the loops

  lemma ReadParamsStep(payload: bytes, i: nat, params: seq<Param>)
    requires i + 6 <= |payload|
    ensures params + ReadParams(payload[i..])
         == params + [Param(ReadU16(payload[i..i + 2]), ReadU32(payload[i + 2..i + 6]))] + ReadParams(payload[i + 6..])
  {
    assert payload[i..][2..6] == payload[i + 2..i + 6];
    assert payload[i..][6..] == payload[i + 6..];
    Associative(params, [Param(ReadU16(payload[i..]), ReadU32(payload[i + 2..i + 6]))], ReadParams(payload[i + 6..]));
  }

  /** The SETTINGS decoding loop. */
  method DecodeParams(payload: bytes) returns (params: seq<Param>)
    ensures params == ReadParams(payload)
  {
    params := [];
    var i := 0;
    assert payload[0..] == payload;
    while i + 6 <= |payload|
      invariant 0 <= i <= |payload|
      invariant ReadParams(payload) == params + ReadParams(payload[i..])
    {
      var id := ReadU16(payload[i..i + 2]);
      var value := ReadU32(payload[i + 2..i + 6]);
      ReadParamsStep(payload, i, params);
      params := params + [Param(id, value)];
      i := i + 6;
    }
  }
}
