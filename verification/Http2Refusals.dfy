/** Which frames the session refuses, and how: the exact conditions for each reset and each failure
    of the connection, with the code that the client reads (sections 5.4 and 7 of RFC 9113). */
module Http2Refusals {
  import opened Wrappers
  import opened Octets
  import opened Http2Frame
  import opened HpackTable
  import HpackBlocks
  import opened Http2Session
  import opened Http2Answers
  import opened Http2Payloads

  /** The client reads RST_STREAM with this code; the stream is gone, and all others stay. */
  ghost predicate ResetWith(s: Session, o: Outcome, id: U32, code: Byte, table: Table) {
    && Reads(o.result.output, [Frame(RST_STREAM, 0, id, [0, 0, 0, code])])
    && o.result == NOTHING.(output := o.result.output, warning := o.result.warning)
    && (code != 0x9 ==> o.result.warning.None?)
    && o.session == s.(streams := s.streams - {id}, table := table, pending := None)
  }

  /** The client reads GOAWAY with this code and text; the connection is down. */
  ghost predicate FailedWith(s: Session, o: Outcome, code: Byte, text: string) {
    && Reads(o.result.output, [Frame(GOAWAY, 0, 0, [0, 0, 0, 0, 0, 0, 0, code] + Ascii(text))])
    && o.result == NOTHING.(output := o.result.output, keepConnection := false)
    && o.session == s.(streams := map[], pending := None, active := false)
  }

  lemma CodeBytes(code: Byte)
    ensures U32Bytes(code) == [0, 0, 0, code] && U32Bytes(0) + U32Bytes(code) == [0, 0, 0, 0, 0, 0, 0, code]
  {
  }

  lemma ResetReads(s: Session, id: U32, code: Byte)
    requires IsStreamId(id) && s.pending.None?
    ensures ResetWith(s, ResetStreamResult(s, id, code), id, code, s.table)
  {
    CodeBytes(code);
    hide Reads, U32Bytes;
    ReadsOne(RstStreamFrame(id, code));
  }

  lemma FailureReads(s: Session, e: Failure, code: Byte, text: string)
    requires FailureCode(e) == code && FailureText(e) == text
    ensures FailedWith(s, FailConnection(s, e), code, text)
  {
    CodeBytes(code);
    hide Reads, FailureText, FailureCode, U32Bytes;
    ReadsOne(GoawayFrame(code, Ascii(text)));
  }

  lemma OnData(s: Session, f: Frame, maxRequestBytes: nat)
    requires ValidFrame(f, DEFAULT_MAX_FRAME_SIZE) && f.kind == DATA && s.pending.None?
    ensures IsStreamId(f.streamId) && HandleFrame(s, f, maxRequestBytes) == HandleData(s, f, maxRequestBytes)
  {
    hide HandleData;
  }

  lemma OnHeaders(s: Session, f: Frame, maxRequestBytes: nat)
    requires ValidFrame(f, DEFAULT_MAX_FRAME_SIZE) && f.kind == HEADERS && s.pending.None?
    ensures IsStreamId(f.streamId) && HandleFrame(s, f, maxRequestBytes) == HandleHeaders(s, f, maxRequestBytes)
  {
    hide HandleHeaders, HandleData, HandleContinuation, FailConnection, ApplySettings, ParseSettings;
  }

  lemma OnContinuation(s: Session, f: Frame, maxRequestBytes: nat)
    requires ValidFrame(f, DEFAULT_MAX_FRAME_SIZE) && f.kind == CONTINUATION
    ensures IsStreamId(f.streamId) && HandleFrame(s, f, maxRequestBytes) == HandleContinuation(s, f, maxRequestBytes)
  {
    hide HandleContinuation;
  }

  lemma OnPending(s: Session, f: Frame, maxRequestBytes: nat)
    requires ValidFrame(f, DEFAULT_MAX_FRAME_SIZE) && f.kind != CONTINUATION && s.pending.Some?
    ensures HandleFrame(s, f, maxRequestBytes) == FailConnection(s, ExpectedContinuation)
  {
    hide FailConnection;
  }

  // ----- DATA

  /** The frame carries these octets, with or without padding. */
  ghost predicate Carries(f: Frame, data: Bytes) {
    if f.flags / 0x8 % 2 == 1 then exists pad :: |pad| < 256 && f.payload == PaddedPayload(data, pad)
    else f.payload == data
  }

  lemma CarriedData(f: Frame, data: Bytes)
    requires Carries(f, data)
    ensures Unpadded(f) == Some(data)
  {
    UnpaddedExactly(f);
    if f.flags / 0x8 % 2 == 1 {
      var pad :| |pad| < 256 && f.payload == PaddedPayload(data, pad);
      var last :| |last| < 256 && f.payload == PaddedPayload(Unpadded(f).value, last);
      SamePadding(data, pad, Unpadded(f).value, last);
    }
  }

  /** DATA for no open stream is answered with STREAM_CLOSED; with padding that is not right, with
      PROTOCOL_ERROR. */
  lemma DataRefused(s: Session, f: Frame, maxRequestBytes: nat)
    requires ValidFrame(f, DEFAULT_MAX_FRAME_SIZE) && f.kind == DATA && s.pending.None?
    ensures var o := HandleFrame(s, f, maxRequestBytes);
      if f.streamId !in s.streams || !s.streams[f.streamId].headersReceived || s.streams[f.streamId].lifecycle != Open
      then ResetWith(s, o, f.streamId, 0x5, s.table)
      else !PaddedRight(f) ==> ResetWith(s, o, f.streamId, 0x1, s.table)
  {
    hide ResetWith, FailConnection, ResetStreamResult, CompleteStream, WindowUpdates, Unpadded, PaddedRight,
         HandleFrame, ValidFrame;
    UnpaddedExactly(f);
    OnData(s, f, maxRequestBytes);
    ResetReads(s, f.streamId, 0x5);
    ResetReads(s, f.streamId, 0x1);
  }

  lemma WindowFailure(s: Session)
    ensures FailedWith(s, FailConnection(s, WindowExceeded), 0x3, "HTTP/2 inbound flow-control window exceeded")
  {
    hide FailedWith, FailConnection;
    FailureReads(s, WindowExceeded, 0x3, "HTTP/2 inbound flow-control window exceeded");
  }

  /** DATA that is more than a window fails the connection, and more than the limit resets the
      stream with ENHANCE_YOUR_CALM. */
  lemma DataLimited(s: Session, f: Frame, data: Bytes, maxRequestBytes: nat)
    requires ValidFrame(f, DEFAULT_MAX_FRAME_SIZE) && f.kind == DATA && s.pending.None? && Carries(f, data)
    requires f.streamId in s.streams && s.streams[f.streamId].headersReceived && s.streams[f.streamId].lifecycle == Open
    ensures var o, stream := HandleFrame(s, f, maxRequestBytes), s.streams[f.streamId];
      if |data| > s.connectionWindow || |data| > stream.inboundWindow
      then FailedWith(s, o, 0x3, "HTTP/2 inbound flow-control window exceeded")
      else |stream.body| + |data| > maxRequestBytes ==> ResetWith(s, o, f.streamId, 0xb, s.table)
  {
    hide ResetWith, FailedWith, FailConnection, ResetStreamResult, CompleteStream, WindowUpdates, Unpadded, Carries,
         HandleFrame, ValidFrame;
    CarriedData(f, data);
    OnData(s, f, maxRequestBytes);
    WindowFailure(s);
    ResetReads(s, f.streamId, 0xb);
  }

  // ----- HEADERS and CONTINUATION

  /** The frame carries this header block, with or without padding and priority. */
  ghost predicate CarriesBlock(f: Frame, block: Bytes) {
    if f.flags / 0x20 % 2 == 1 then exists priority: Bytes :: |priority| == 5 && Carries(f, priority + block)
    else Carries(f, block)
  }

  lemma CarriedBlock(f: Frame, block: Bytes)
    requires CarriesBlock(f, block)
    ensures HeaderBlockPayload(f) == Some(block)
  {
    if f.flags / 0x20 % 2 == 1 {
      var priority: Bytes :| |priority| == 5 && Carries(f, priority + block);
      CarriedData(f, priority + block);
      assert (priority + block)[5..] == block;
    } else {
      CarriedData(f, block);
    }
  }

  lemma EvenFailure(s: Session)
    ensures FailedWith(s, FailConnection(s, EvenStreamId), 0x1, "HTTP/2 client stream id must be odd")
  {
    hide FailedWith, FailConnection;
    FailureReads(s, EvenStreamId, 0x1, "HTTP/2 client stream id must be odd");
  }

  /** HEADERS with an even stream id fail the connection; for a stream that is not stored and not
      new they are answered with STREAM_CLOSED; with a payload that is not right with
      PROTOCOL_ERROR. */
  lemma HeadersRefused(s: Session, f: Frame, maxRequestBytes: nat)
    requires ValidFrame(f, DEFAULT_MAX_FRAME_SIZE) && f.kind == HEADERS && s.pending.None?
    ensures var o := HandleFrame(s, f, maxRequestBytes);
      if f.streamId % 2 == 0 then FailedWith(s, o, 0x1, "HTTP/2 client stream id must be odd")
      else if f.streamId !in s.streams && f.streamId <= s.lastClientStreamId
      then ResetWith(s, o, f.streamId, 0x5, s.table)
      else !HeadersRight(f) ==> ResetWith(s, o, f.streamId, 0x1, s.table)
  {
    hide ResetWith, FailedWith, FailConnection, ResetStreamResult, HeaderBlockPayload, HeadersRight, DecodeHeaders,
         HandleFrame, ValidFrame;
    HeadersPayloadExactly(f);
    OnHeaders(s, f, maxRequestBytes);
    EvenFailure(s);
    ResetReads(s, f.streamId, 0x5);
    ResetReads(s, f.streamId, 0x1);
  }

  /** HEADERS that may open or repeat a stream: a block above the limit resets it with
      ENHANCE_YOUR_CALM; an unfinished one is kept; a finished one is decoded. */
  lemma HeadersTaken(s: Session, f: Frame, block: Bytes, maxRequestBytes: nat)
    requires ValidFrame(f, DEFAULT_MAX_FRAME_SIZE) && f.kind == HEADERS && s.pending.None? && CarriesBlock(f, block)
    requires f.streamId % 2 == 1 && (f.streamId in s.streams || f.streamId > s.lastClientStreamId)
    ensures var o := HandleFrame(s, f, maxRequestBytes);
      if |block| > maxRequestBytes then ResetWith(s, o, f.streamId, 0xb, s.table)
      else if f.flags / 0x4 % 2 == 0 then
        o == Outcome(s.(pending := Some(Pending(f.streamId, f.flags % 2 == 1, block))), NOTHING)
      else o == DecodeHeaders(s, f.streamId, f.flags % 2 == 1, block)
  {
    hide ResetWith, FailConnection, ResetStreamResult, HeaderBlockPayload, DecodeHeaders, CarriesBlock, HandleFrame,
         ValidFrame;
    CarriedBlock(f, block);
    OnHeaders(s, f, maxRequestBytes);
    ResetReads(s, f.streamId, 0xb);
  }

  lemma ContinuationFailures(s: Session)
    ensures FailedWith(s, FailConnection(s, ExpectedContinuation), 0x1,
                       "HTTP/2 expected CONTINUATION before any other frame")
    ensures FailedWith(s, FailConnection(s, UnmatchedContinuation), 0x1,
                       "HTTP/2 CONTINUATION received without matching HEADERS")
  {
    hide FailedWith, FailConnection;
    FailureReads(s, ExpectedContinuation, 0x1, "HTTP/2 expected CONTINUATION before any other frame");
    FailureReads(s, UnmatchedContinuation, 0x1, "HTTP/2 CONTINUATION received without matching HEADERS");
  }

  lemma ResetFromPending(s: Session, id: U32)
    requires IsStreamId(id)
    ensures ResetWith(s, ResetStreamResult(s.(pending := None), id, 0xb), id, 0xb, s.table)
  {
    ResetReads(s.(pending := None), id, 0xb);
    hide Reads, FrameString;
  }

  /** CONTINUATION frames go on with the pending block of their stream, up to the limit; any other
      CONTINUATION, and any other frame while a block is pending, fails the connection. */
  lemma ContinuationTaken(s: Session, f: Frame, maxRequestBytes: nat)
    requires ValidFrame(f, DEFAULT_MAX_FRAME_SIZE) && (f.kind == CONTINUATION || s.pending.Some?)
    ensures var o := HandleFrame(s, f, maxRequestBytes);
      if f.kind != CONTINUATION then FailedWith(s, o, 0x1, "HTTP/2 expected CONTINUATION before any other frame")
      else if s.pending.None? || s.pending.value.streamId != f.streamId
      then FailedWith(s, o, 0x1, "HTTP/2 CONTINUATION received without matching HEADERS")
      else
        var (id, endStream, block) := (f.streamId, s.pending.value.endStream, s.pending.value.block + f.payload);
        if |block| > maxRequestBytes then ResetWith(s, o, id, 0xb, s.table)
        else if f.flags / 0x4 % 2 == 0 then o == Outcome(s.(pending := Some(Pending(id, endStream, block))), NOTHING)
        else o == DecodeHeaders(s.(pending := None), id, endStream, block)
  {
    hide ResetWith, FailedWith, FailConnection, ResetStreamResult, DecodeHeaders, HandleFrame, ValidFrame;
    ContinuationFailures(s);
    if f.kind == CONTINUATION {
      OnContinuation(s, f, maxRequestBytes);
      ResetFromPending(s, f.streamId);
    } else {
      OnPending(s, f, maxRequestBytes);
    }
  }

  /** A whole header block that cannot be decoded resets the stream with COMPRESSION_ERROR; a second
      one of the same stream with PROTOCOL_ERROR. In both cases the table is the one that the block
      has left. */
  lemma BlockRefused(s: Session, id: U32, endStream: bool, block: Bytes)
    requires IsStreamId(id) && s.pending.None?
    ensures var o := DecodeHeaders(s, id, endStream, block);
      var decoded := HpackBlocks.DecodeBlock(block, s.table, false);
      && (decoded.headers.Err? ==>
            ResetWith(s, o, id, 0x9, decoded.table) && o.result.warning == Some(decoded.headers.error))
      && (decoded.headers.Ok? && id in s.streams && s.streams[id].headersReceived ==>
            ResetWith(s, o, id, 0x1, decoded.table))
  {
    hide HpackBlocks.DecodeBlock, WithHeaders, CompleteStream, Reads, FrameString;
    var decoded := HpackBlocks.DecodeBlock(block, s.table, false);
    var s1 := s.(table := decoded.table);
    ResetReads(s1, id, 0x9);
    ResetReads(s1, id, 0x1);
  }

  // ----- all other frames

  lemma PushFailure(s: Session)
    ensures FailedWith(s, FailConnection(s, PushPromise), 0x1, "HTTP/2 clients must not send PUSH_PROMISE")
  {
    hide FailedWith, FailConnection;
    FailureReads(s, PushPromise, 0x1, "HTTP/2 clients must not send PUSH_PROMISE");
  }

  /** The other frames, between header blocks: SETTINGS and PING are answered unless they are
      acknowledgements; GOAWAY closes; RST_STREAM drops its stream; PUSH_PROMISE fails the
      connection; and any other kind changes and shows nothing. */
  lemma OtherFrames(s: Session, f: Frame, maxRequestBytes: nat)
    requires ValidFrame(f, DEFAULT_MAX_FRAME_SIZE) && s.pending.None?
    ensures var o := HandleFrame(s, f, maxRequestBytes);
      && (f.kind == 4 && f.flags % 2 == 0 ==>
            && Reads(o.result.output, [Frame(4, 1, 0, [])]) && o.result == NOTHING.(output := o.result.output)
            && o.session == s.(table := ApplySettings(s.table, ParseSettings(f.payload))))
      && (f.kind == 6 && f.flags % 2 == 0 ==>
            && Reads(o.result.output, [Frame(6, 1, 0, f.payload)]) && o.result == NOTHING.(output := o.result.output)
            && o.session == s)
      && (f.kind in {4, 6} && f.flags % 2 == 1 ==> o == Outcome(s, NOTHING))
      && (f.kind == 7 ==> o == Outcome(s, NOTHING.(keepConnection := false, closeNow := true)))
      && (f.kind == 3 ==> o == Outcome(s.(streams := s.streams - {f.streamId}), NOTHING))
      && (f.kind == 5 ==> FailedWith(s, o, 0x1, "HTTP/2 clients must not send PUSH_PROMISE"))
      && (f.kind !in {0, 1, 3, 4, 5, 6, 7, 9} ==> o == Outcome(s, NOTHING))
  {
    hide FailedWith, FailConnection, HandleHeaders, HandleContinuation, HandleData, Reads, ParseSettings, ApplySettings,
         FrameString;
    PushFailure(s);
    ReadsOne(SettingsFrame(true));
    if f.kind == PING {
      ReadsOne(PingFrame(f.payload, true));
    }
  }

  // ----- input

  lemma BufferFailure(s: Session)
    ensures FailedWith(s, FailConnection(s, BufferExceeded), 0xb, "HTTP/2 frame buffer exceeded Rimau request limit")
  {
    hide FailedWith, FailConnection;
    FailureReads(s, BufferExceeded, 0xb, "HTTP/2 frame buffer exceeded Rimau request limit");
  }

  /** A buffer above the limit fails the connection, and so do octets that are no frame; nothing of
      them is kept. */
  lemma InputRefused(s: Session, buffer: Bytes, maxRequestBytes: nat)
    requires s.active && buffer != []
    ensures var p := ProcessInput(s, buffer, maxRequestBytes); var parsed := ParseFrame(buffer, 16384);
      && (|buffer| > maxRequestBytes ==>
            && FailedWith(s, Outcome(p.session, p.result), 0xb, "HTTP/2 frame buffer exceeded Rimau request limit")
            && p.buffer == [])
      && (|buffer| <= maxRequestBytes && parsed.Invalid? ==>
            FailedWith(s, Outcome(p.session, p.result), 0x1, FrameErrorText(parsed.error)) && p.buffer == [])
      && (|buffer| <= maxRequestBytes && parsed.Incomplete? ==> p == Processed(s, buffer, NOTHING))
  {
    hide FailedWith, FailConnection, ParseFrame, HandleFrame, FrameErrorText;
    BufferFailure(s);
    var parsed := ParseFrame(buffer, 16384);
    if parsed.Invalid? {
      FailureReads(s, BadFrame(parsed.error), 0x1, FrameErrorText(parsed.error));
    }
  }

  /** A connection that is down looks at nothing. */
  lemma NothingWhenDown(s: Session, buffer: Bytes, maxRequestBytes: nat)
    requires !s.active
    ensures ProcessInput(s, buffer, maxRequestBytes) == Processed(s, buffer, NOTHING)
  {
  }
}
