/** The HTTP/2 server session as a state and its transitions, one per frame (RFC 9113). */
module Http2Session {
  import opened Wrappers
  import opened Octets
  import opened Http2Frame
  import opened HpackErrors
  import opened HpackTable
  import HpackBlocks
  import opened RequestText
  import opened Http2Translation

  const ERROR_PROTOCOL: U32 := 0x1
  const ERROR_FLOW_CONTROL: U32 := 0x3
  const ERROR_STREAM_CLOSED: U32 := 0x5
  const ERROR_COMPRESSION: U32 := 0x9
  const ERROR_ENHANCE_YOUR_CALM: U32 := 0xb
  const ERROR_HTTP_1_1_REQUIRED: U32 := 0xd

  const INITIAL_WINDOW: nat := 65535

  // ----- the state

  datatype Lifecycle = Open | HalfClosedRemote

  datatype Stream = Stream(id: U32, headersReceived: bool, lifecycle: Lifecycle, inboundWindow: nat,
                           headers: seq<HeaderField>, body: Bytes)

  const NEW_STREAM := Stream(0, false, Open, INITIAL_WINDOW, [], [])

  /** A header block that CONTINUATION frames have yet to finish. */
  datatype Pending = Pending(streamId: U32, endStream: bool, block: Bytes)

  datatype Session = Session(active: bool, lastClientStreamId: U32, connectionWindow: nat, table: Table,
                             pending: Option<Pending>, streams: map<U32, Stream>)

  datatype Completed = Completed(streamId: U32, request: Request)

  datatype ErrorResponse = ErrorResponse(status: nat, body: Bytes)

  datatype SessionResult = SessionResult(output: Bytes, keepConnection: bool, closeNow: bool,
                                         completed: Option<Completed>, errorResponse: Option<ErrorResponse>,
                                         errorStreamId: U32, warning: Option<HpackError>)

  const NOTHING := SessionResult([], true, false, None, None, 0, None)

  /** A result that ends `process_input`. */
  predicate Visible(r: SessionResult) {
    r.output != [] || r.closeNow || r.completed.Some? || r.errorResponse.Some?
  }

  datatype Outcome = Outcome(session: Session, result: SessionResult)

  // ----- the frames that the session sends

  // The flags 0x1, 0x4, 0x8 and 0x20; 0x1 is ACK on SETTINGS and PING frames.

  predicate IsAck(f: Frame) {
    f.flags % 2 == 1
  }

  predicate EndsStream(f: Frame) {
    f.flags % 2 == 1
  }

  predicate EndsHeaders(f: Frame) {
    f.flags / 0x4 % 2 == 1
  }

  predicate IsPadded(f: Frame) {
    f.flags / 0x8 % 2 == 1
  }

  predicate HasPriority(f: Frame) {
    f.flags / 0x20 % 2 == 1
  }

  function FrameString(f: Frame): Bytes
    requires ValidFrame(f, DEFAULT_MAX_FRAME_SIZE)
  {
    FrameWire(f)
  }

  function SettingsFrame(ack: bool): Frame {
    Frame(SETTINGS, if ack then 1 else 0, 0, [])
  }

  function RstStreamFrame(streamId: U32, errorCode: U32): Frame {
    Frame(RST_STREAM, 0, streamId, U32Bytes(errorCode))
  }

  function PingFrame(payload: Bytes, ack: bool): Frame {
    Frame(PING, if ack then 1 else 0, 0, payload)
  }

  function WindowUpdateFrame(streamId: U32, increment: U32): Frame {
    Frame(WINDOW_UPDATE, 0, streamId, U32Bytes(increment % 0x8000_0000))
  }

  /** The last stream id is always given as zero. */
  function GoawayFrame(errorCode: U32, debug: Bytes): Frame {
    Frame(GOAWAY, 0, 0, U32Bytes(0) + U32Bytes(errorCode) + debug)
  }

  predicate IsStreamId(id: U32) {
    0 < id <= MAX_STREAM_ID
  }

  function FrameErrorText(e: FrameError): (text: string)
    ensures |text| < 100
  {
    match e
    case MaxFrameSizeTooLarge => "max_frame_size exceeds HTTP/2 maximum"
    case PayloadTooLarge => "HTTP/2 frame payload exceeds configured maximum frame size"
    case StreamFrameOnZero => "HTTP/2 stream frame must use a non-zero stream id"
    case ConnectionFrameOnStream => "HTTP/2 connection frame must use stream id 0"
    case SettingsAckWithPayload => "HTTP/2 SETTINGS ack frame must not contain a payload"
    case SettingsLength => "HTTP/2 SETTINGS payload length must be a multiple of 6"
    case PingLength => "HTTP/2 PING payload length must be 8"
    case RstStreamLength => "HTTP/2 RST_STREAM payload length must be 4"
    case GoawayLength => "HTTP/2 GOAWAY payload length must be at least 8"
    case WindowUpdateLength => "HTTP/2 WINDOW_UPDATE payload length must be 4"
    case ZeroIncrement => "HTTP/2 WINDOW_UPDATE increment must be non-zero"
    case StreamIdTooLarge => "HTTP/2 stream id exceeds 31 bits"
  }

  datatype Failure =
    | BufferExceeded | BadFrame(error: FrameError) | ExpectedContinuation | HeadersDuringPending | EvenStreamId
    | UnmatchedContinuation | WindowExceeded | PushPromise

  function FailureText(e: Failure): (text: string)
    ensures |text| < 100
  {
    match e
    case BufferExceeded => "HTTP/2 frame buffer exceeded Rimau request limit"
    case BadFrame(error) => FrameErrorText(error)
    case ExpectedContinuation => "HTTP/2 expected CONTINUATION before any other frame"
    case HeadersDuringPending => "HTTP/2 HEADERS received before pending CONTINUATION sequence ended"
    case EvenStreamId => "HTTP/2 client stream id must be odd"
    case UnmatchedContinuation => "HTTP/2 CONTINUATION received without matching HEADERS"
    case WindowExceeded => "HTTP/2 inbound flow-control window exceeded"
    case PushPromise => "HTTP/2 clients must not send PUSH_PROMISE"
  }

  function FailureCode(e: Failure): U32 {
    match e
    case BufferExceeded => ERROR_ENHANCE_YOUR_CALM
    case WindowExceeded => ERROR_FLOW_CONTROL
    case _ => ERROR_PROTOCOL
  }

  // ----- payloads without their padding and priority

  /** The payload between the pad length and the padding. */
  function Unpadded(f: Frame): Option<Bytes> {
    if !IsPadded(f) then Some(f.payload)
    else if f.payload == [] || f.payload[0] > |f.payload| - 1 then None
    else Some(f.payload[1..|f.payload| - f.payload[0]])
  }

  function HeaderBlockPayload(f: Frame): Option<Bytes> {
    match Unpadded(f)
    case None => None
    case Some(block) =>
      if !HasPriority(f) then Some(block)
      else if |block| < 5 then None
      else Some(block[5..])
  }

  function DataPayload(f: Frame): (r: Option<Bytes>)
    ensures r.Some? ==> |r.value| <= |f.payload|
  {
    Unpadded(f)
  }

  // ----- endings

  function FailConnection(s: Session, e: Failure): Outcome {
    Outcome(s.(streams := map[], pending := None, active := false),
            NOTHING.(output := FrameString(GoawayFrame(FailureCode(e), Ascii(FailureText(e)))),
                keepConnection := false))
  }

  function ResetStreamResult(s: Session, streamId: U32, errorCode: U32): Outcome
    requires IsStreamId(streamId)
  {
    Outcome(s.(streams := s.streams - {streamId}), NOTHING.(output := FrameString(RstStreamFrame(streamId, errorCode))))
  }

  function BadRequest(): ErrorResponse {
    ErrorResponse(400, Ascii("Bad Request\n"))
  }

  function CompleteStream(s: Session, streamId: U32): Outcome
    requires IsStreamId(streamId)
  {
    if streamId !in s.streams then ResetStreamResult(s, streamId, ERROR_STREAM_CLOSED)
    else
      var stream := s.streams[streamId];
      Outcome(s.(streams := s.streams - {streamId}),
              match Built(stream.headers, stream.body)
              case None => NOTHING.(errorResponse := Some(BadRequest()), errorStreamId := streamId)
              case Some(request) => NOTHING.(completed := Some(Completed(streamId, request))))
  }

  // ----- HEADERS and CONTINUATION

  /** A stream whose header fields have arrived. */
  function WithHeaders(s: Session, streamId: U32, endStream: bool, headers: seq<HeaderField>): Session {
    var stream := if streamId in s.streams then s.streams[streamId] else NEW_STREAM;
    s.(streams := s.streams[streamId := stream.(id := streamId, headersReceived := true, headers := headers,
                                                lifecycle := if endStream then HalfClosedRemote else Open)],
       lastClientStreamId := if streamId > s.lastClientStreamId then streamId else s.lastClientStreamId)
  }

  ghost function DecodeHeaders(s: Session, streamId: U32, endStream: bool, block: Bytes): Outcome
    requires IsStreamId(streamId)
  {
    var decoded := HpackBlocks.DecodeBlock(block, s.table, false);
    var s1 := s.(table := decoded.table);
    match decoded.headers
    case Err(e) =>
      var reset := ResetStreamResult(s1, streamId, ERROR_COMPRESSION);
      reset.(result := reset.result.(warning := Some(e)))
    case Ok(headers) =>
      if streamId in s.streams && s.streams[streamId].headersReceived
          then ResetStreamResult(s1, streamId, ERROR_PROTOCOL)
      else
        var s2 := WithHeaders(s1, streamId, endStream, headers);
        if endStream then CompleteStream(s2, streamId) else Outcome(s2, NOTHING)
  }

  ghost function HandleHeaders(s: Session, f: Frame, maxRequestBytes: nat): Outcome
    requires IsStreamId(f.streamId)
  {
    if s.pending.Some? then FailConnection(s, HeadersDuringPending)
    else if f.streamId % 2 == 0 then FailConnection(s, EvenStreamId)
    else if f.streamId !in s.streams && f.streamId <= s.lastClientStreamId then
      ResetStreamResult(s, f.streamId, ERROR_STREAM_CLOSED)
    else
      match HeaderBlockPayload(f)
      case None => ResetStreamResult(s, f.streamId, ERROR_PROTOCOL)
      case Some(block) =>
        if |block| > maxRequestBytes then ResetStreamResult(s, f.streamId, ERROR_ENHANCE_YOUR_CALM)
        else if !EndsHeaders(f) then
          Outcome(s.(pending := Some(Pending(f.streamId, EndsStream(f), block))), NOTHING)
        else DecodeHeaders(s, f.streamId, EndsStream(f), block)
  }

  ghost function HandleContinuation(s: Session, f: Frame, maxRequestBytes: nat): Outcome
    requires IsStreamId(f.streamId)
  {
    if s.pending.None? || s.pending.value.streamId != f.streamId then FailConnection(s, UnmatchedContinuation)
    else
      var p := s.pending.value;
      if |p.block| + |f.payload| > maxRequestBytes then
        ResetStreamResult(s.(pending := None), f.streamId, ERROR_ENHANCE_YOUR_CALM)
      else if !EndsHeaders(f) then
        Outcome(s.(pending := Some(p.(block := p.block + f.payload))), NOTHING)
      else DecodeHeaders(s.(pending := None), p.streamId, p.endStream, p.block + f.payload)
  }

  // ----- DATA

  /** The two WINDOW_UPDATE frames for `n` octets, or nothing for none. */
  function WindowUpdates(streamId: U32, n: nat): Bytes
    requires IsStreamId(streamId) && n <= DEFAULT_MAX_FRAME_SIZE
  {
    if n == 0 then []
    else FrameString(WindowUpdateFrame(0, n)) + FrameString(WindowUpdateFrame(streamId, n))
  }

  /** The octets that a DATA frame adds to the body of its stream, when it passes all tests. */
  function AcceptedData(s: Session, f: Frame, maxRequestBytes: nat): Option<Bytes> {
    if f.streamId !in s.streams || !s.streams[f.streamId].headersReceived then None
    else if s.streams[f.streamId].lifecycle == HalfClosedRemote then None
    else
      match DataPayload(f)
      case None => None
      case Some(payload) =>
        if |payload| > s.connectionWindow || |payload| > s.streams[f.streamId].inboundWindow then None
        else if |s.streams[f.streamId].body| + |payload| > maxRequestBytes then None
        else Some(payload)
  }

  function HandleData(s: Session, f: Frame, maxRequestBytes: nat): Outcome
    requires ValidFrame(f, DEFAULT_MAX_FRAME_SIZE) && IsStreamId(f.streamId)
  {
    if f.streamId !in s.streams || !s.streams[f.streamId].headersReceived then
      ResetStreamResult(s, f.streamId, ERROR_STREAM_CLOSED)
    else if s.streams[f.streamId].lifecycle == HalfClosedRemote then
      ResetStreamResult(s, f.streamId, ERROR_STREAM_CLOSED)
    else
      match DataPayload(f)
      case None => ResetStreamResult(s, f.streamId, ERROR_PROTOCOL)
      case Some(payload) =>
        var stream := s.streams[f.streamId];
        if |payload| > s.connectionWindow || |payload| > stream.inboundWindow then FailConnection(s, WindowExceeded)
        else if |stream.body| + |payload| > maxRequestBytes then
          ResetStreamResult(s, f.streamId, ERROR_ENHANCE_YOUR_CALM)
        else
          var updates := WindowUpdates(f.streamId, |payload|);
          var grown := stream.(body := stream.body + payload);
          if EndsStream(f) then
            var done := CompleteStream(s.(streams := s.streams[f.streamId := grown.(lifecycle := HalfClosedRemote)]),
                f.streamId);
            done.(result := done.result.(output := updates + done.result.output))
          else Outcome(s.(streams := s.streams[f.streamId := grown]), NOTHING.(output := updates))
  }

  // ----- all frames

  function ApplySettings(table: Table, settings: seq<Setting>): Table
    decreases |settings|
  {
    if settings == [] then table
    else
      var next := if settings[0].identifier == HEADER_TABLE_SIZE then Resize(table, settings[0].value) else table;
      ApplySettings(next, settings[1..])
  }

  ghost function HandleFrame(s: Session, f: Frame, maxRequestBytes: nat): Outcome
    requires ValidFrame(f, DEFAULT_MAX_FRAME_SIZE)
  {
    if s.pending.Some? && f.kind != CONTINUATION then FailConnection(s, ExpectedContinuation)
    else if f.kind == SETTINGS then
      if IsAck(f) then Outcome(s, NOTHING)
      else Outcome(s.(table := ApplySettings(s.table, ParseSettings(f.payload))),
          NOTHING.(output := FrameString(SettingsFrame(true))))
    else if f.kind == PING then
      if IsAck(f) then Outcome(s, NOTHING)
      else Outcome(s, NOTHING.(output := FrameString(PingFrame(f.payload, true))))
    else if f.kind == GOAWAY then Outcome(s, NOTHING.(keepConnection := false, closeNow := true))
    else if f.kind == RST_STREAM then Outcome(s.(streams := s.streams - {f.streamId}), NOTHING)
    else if f.kind == HEADERS then HandleHeaders(s, f, maxRequestBytes)
    else if f.kind == DATA then HandleData(s, f, maxRequestBytes)
    else if f.kind == CONTINUATION then HandleContinuation(s, f, maxRequestBytes)
    else if f.kind == PUSH_PROMISE then FailConnection(s, PushPromise)
    else Outcome(s, NOTHING)
  }

  // ----- input

  datatype Processed = Processed(session: Session, buffer: Bytes, result: SessionResult)

  ghost function ProcessInput(s: Session, buffer: Bytes, maxRequestBytes: nat): Processed
    decreases |buffer|
  {
    if !s.active || buffer == [] then Processed(s, buffer, NOTHING)
    else if |buffer| > maxRequestBytes then
      var failed := FailConnection(s, BufferExceeded);
      Processed(failed.session, [], failed.result)
    else
      match ParseFrame(buffer, DEFAULT_MAX_FRAME_SIZE)
      case Incomplete => Processed(s, buffer, NOTHING)
      case Invalid(e) =>
        var failed := FailConnection(s, BadFrame(e));
        Processed(failed.session, [], failed.result)
      case Parsed(frame, consumed) =>
        var next := HandleFrame(s, frame, maxRequestBytes);
        if Visible(next.result) then Processed(next.session, buffer[consumed..], next.result)
        else ProcessInput(next.session, buffer[consumed..], maxRequestBytes)
  }

  /** `reset_stream`. */
  function Forget(s: Session, streamId: U32): Session {
    s.(streams := s.streams - {streamId})
  }
}
