/** The `ServerSession` object: fields updated in place, one method per kind of frame, each
    proved to make the corresponding transition. */
module Http2Server {
  import opened Wrappers
  import opened Octets
  import opened Http2Frame
  import opened HpackTable
  import HpackBlocks
  import opened Hpack
  import opened Http2Translation
  import opened Http2Session
  import opened Http2Preface

  class ServerSession {
    var active: bool
    var lastClientStreamId: U32
    var connectionInboundWindow: nat
    const decoder: HpackDecoder
    var pendingHeaders: Option<Pending>
    var streams: map<U32, Stream>

    ghost predicate Valid()
      reads this, decoder
    {
      decoder.Valid()
    }

    function State(): Session
      reads this, decoder
    {
      Session(active, lastClientStreamId, connectionInboundWindow, decoder.Contents(), pendingHeaders, streams)
    }

    constructor ()
      ensures Valid() && fresh(decoder)
      ensures State() == Session(false, 0, INITIAL_WINDOW, Table([], 4096), None, map[])
    {
      active, lastClientStreamId, connectionInboundWindow := false, 0, INITIAL_WINDOW;
      pendingHeaders, streams := None, map[];
      decoder := new HpackDecoder();
    }

    /** Everything but the size limit of the decoder's table. */
    method Reset()
      requires Valid()
      modifies this, decoder
      ensures Valid()
      ensures State() == Session(false, 0, INITIAL_WINDOW, Table([], old(State()).table.maxSize), None, map[])
    {
      active, lastClientStreamId, connectionInboundWindow := false, 0, INITIAL_WINDOW;
      decoder.Reset();
      pendingHeaders, streams := None, map[];
    }

    /** `accept_preface`; the buffer comes back as an out-parameter. */
    method AcceptPreface(inputBuffer: Bytes, limit: nat, enabled: bool, allowed: bool)
      returns (verdict: Verdict, buffer: Bytes)
      requires Valid()
      modifies this
      ensures Valid() && Reading(verdict, buffer) == ReadPreface(inputBuffer, limit, enabled, allowed)
      ensures State() == if verdict.status.Accepted? then old(State()).(active := true) else old(State())
    {
      hide Preface, ObjectionText, ParseFrame, ParseSettings;
      verdict, buffer := Verdict(NotHttp2, [], true), inputBuffer;
      if buffer == [] {
        return;
      }
      var comparable := if |buffer| < 24 then |buffer| else 24;
      if buffer[..comparable] != Preface()[..comparable] {
        return;
      }
      verdict := WAIT;
      if |buffer| < 24 {
        return;
      }
      if |buffer| > limit {
        verdict, buffer := Rejection(TooLong), [];
        return;
      }
      var parsed := ReadFrame(buffer[24..], DEFAULT_MAX_FRAME_SIZE);
      if parsed.Incomplete? {
        return;
      }
      if !parsed.Parsed? || parsed.frame.kind != SETTINGS || parsed.frame.streamId != 0 {
        verdict, buffer := Rejection(NoSettings), [];
        return;
      }
      var settings := ReadSettings(parsed.frame.payload);
      assert settings.Ok?;
      buffer := buffer[24 + parsed.consumed..];
      if !enabled {
        verdict := Rejection(Disabled);
        return;
      }
      if !allowed {
        verdict := Rejection(RateLimited);
        return;
      }
      active := true;
      verdict := Verdict(Accepted, FrameString(SettingsFrame(false)) + FrameString(SettingsFrame(true)), true);
    }

    method ResetStream(streamId: U32)
      requires Valid()
      modifies this
      ensures Valid() && State() == Forget(old(State()), streamId)
    {
      streams := streams - {streamId};
    }

    method Fail(e: Failure) returns (r: SessionResult)
      requires Valid()
      modifies this
      ensures Valid() && Outcome(State(), r) == FailConnection(old(State()), e)
    {
      hide FailureText, FailureCode;
      streams := map[];
      pendingHeaders := None;
      active := false;
      r := NOTHING.(output := FrameString(GoawayFrame(FailureCode(e), Ascii(FailureText(e)))), keepConnection := false);
    }

    method ResetOne(streamId: U32, errorCode: U32) returns (r: SessionResult)
      requires Valid() && IsStreamId(streamId)
      modifies this
      ensures Valid() && Outcome(State(), r) == ResetStreamResult(old(State()), streamId, errorCode)
    {
      streams := streams - {streamId};
      r := NOTHING.(output := FrameString(RstStreamFrame(streamId, errorCode)));
    }

    method Complete(streamId: U32) returns (r: SessionResult)
      requires Valid() && IsStreamId(streamId)
      modifies this
      ensures Valid() && Outcome(State(), r) == CompleteStream(old(State()), streamId)
    {
      hide Built;
      if streamId !in streams {
        r := ResetOne(streamId, ERROR_STREAM_CLOSED);
        return;
      }
      var stream := streams[streamId];
      streams := streams - {streamId};
      var built := BuildRequest(stream.headers, stream.body);
      if built.None? {
        r := NOTHING.(errorResponse := Some(BadRequest()), errorStreamId := streamId);
      } else {
        r := NOTHING.(completed := Some(Completed(streamId, built.value)));
      }
    }

    method HandleHeaderBlock(streamId: U32, endStream: bool, block: Bytes) returns (r: SessionResult)
      requires Valid() && IsStreamId(streamId)
      modifies this, decoder
      ensures Valid() && Outcome(State(), r) == DecodeHeaders(old(State()), streamId, endStream, block)
    {
      hide HpackBlocks.DecodeBlock, CompleteStream, ResetStreamResult;
      var decoded := decoder.DecodeHeaderBlock(block);
      if decoded.Err? {
        r := ResetOne(streamId, ERROR_COMPRESSION);
        r := r.(warning := Some(decoded.error));
        return;
      }
      if streamId in streams && streams[streamId].headersReceived {
        r := ResetOne(streamId, ERROR_PROTOCOL);
        return;
      }
      var stream := if streamId in streams then streams[streamId] else NEW_STREAM;
      stream := stream.(id := streamId, headersReceived := true, headers := decoded.value,
                        lifecycle := if endStream then HalfClosedRemote else Open);
      streams := streams[streamId := stream];
      if streamId > lastClientStreamId {
        lastClientStreamId := streamId;
      }
      if endStream {
        r := Complete(streamId);
      } else {
        r := NOTHING;
      }
    }

    method HandleHeadersFrame(f: Frame, maxRequestBytes: nat) returns (r: SessionResult)
      requires Valid() && IsStreamId(f.streamId)
      modifies this, decoder
      ensures Valid() && Outcome(State(), r) == HandleHeaders(old(State()), f, maxRequestBytes)
    {
      hide DecodeHeaders, FailConnection, ResetStreamResult;
      if pendingHeaders.Some? {
        r := Fail(HeadersDuringPending);
        return;
      }
      if f.streamId % 2 == 0 {
        r := Fail(EvenStreamId);
        return;
      }
      if f.streamId !in streams && f.streamId <= lastClientStreamId {
        r := ResetOne(f.streamId, ERROR_STREAM_CLOSED);
        return;
      }
      var block := HeaderBlockPayload(f);
      if block.None? {
        r := ResetOne(f.streamId, ERROR_PROTOCOL);
        return;
      }
      if |block.value| > maxRequestBytes {
        r := ResetOne(f.streamId, ERROR_ENHANCE_YOUR_CALM);
        return;
      }
      if !EndsHeaders(f) {
        pendingHeaders := Some(Pending(f.streamId, EndsStream(f), block.value));
        return NOTHING;
      }
      r := HandleHeaderBlock(f.streamId, EndsStream(f), block.value);
    }

    method HandleContinuationFrame(f: Frame, maxRequestBytes: nat) returns (r: SessionResult)
      requires Valid() && IsStreamId(f.streamId)
      modifies this, decoder
      ensures Valid() && Outcome(State(), r) == HandleContinuation(old(State()), f, maxRequestBytes)
    {
      hide DecodeHeaders, FailConnection, ResetStreamResult;
      if pendingHeaders.None? || pendingHeaders.value.streamId != f.streamId {
        r := Fail(UnmatchedContinuation);
        return;
      }
      var pending := pendingHeaders.value;
      if |pending.block| + |f.payload| > maxRequestBytes {
        pendingHeaders := None;
        r := ResetOne(f.streamId, ERROR_ENHANCE_YOUR_CALM);
        return;
      }
      pending := pending.(block := pending.block + f.payload);
      if !EndsHeaders(f) {
        pendingHeaders := Some(pending);
        return NOTHING;
      }
      pendingHeaders := None;
      r := HandleHeaderBlock(pending.streamId, pending.endStream, pending.block);
    }

    /** The windows shrink by the payload and grow again by the announced increment. */
    method HandleDataFrame(f: Frame, maxRequestBytes: nat) returns (r: SessionResult)
      requires Valid() && ValidFrame(f, DEFAULT_MAX_FRAME_SIZE) && IsStreamId(f.streamId)
      modifies this
      ensures Valid() && Outcome(State(), r) == HandleData(old(State()), f, maxRequestBytes)
    {
      hide CompleteStream, FailConnection, ResetStreamResult, FrameString, DataPayload, EndsStream;
      if f.streamId !in streams || !streams[f.streamId].headersReceived {
        r := ResetOne(f.streamId, ERROR_STREAM_CLOSED);
        return;
      }
      if streams[f.streamId].lifecycle == HalfClosedRemote {
        r := ResetOne(f.streamId, ERROR_STREAM_CLOSED);
        return;
      }
      var payload := DataPayload(f);
      if payload.None? {
        r := ResetOne(f.streamId, ERROR_PROTOCOL);
        return;
      }
      var n := |payload.value|;
      var stream := streams[f.streamId];
      if n > connectionInboundWindow || n > stream.inboundWindow {
        r := Fail(WindowExceeded);
        return;
      }
      if |stream.body| + n > maxRequestBytes {
        r := ResetOne(f.streamId, ERROR_ENHANCE_YOUR_CALM);
        return;
      }
      connectionInboundWindow := connectionInboundWindow - n;
      stream := stream.(inboundWindow := stream.inboundWindow - n, body := stream.body + payload.value);
      var windowUpdates: Bytes := [];
      if n != 0 {
        connectionInboundWindow := connectionInboundWindow + n;
        stream := stream.(inboundWindow := stream.inboundWindow + n);
        windowUpdates := FrameString(WindowUpdateFrame(0, n)) + FrameString(WindowUpdateFrame(f.streamId, n));
      }
      if EndsStream(f) {
        streams := streams[f.streamId := stream.(lifecycle := HalfClosedRemote)];
        r := Complete(f.streamId);
        r := r.(output := windowUpdates + r.output);
      } else {
        streams := streams[f.streamId := stream];
        r := NOTHING.(output := windowUpdates);
      }
    }

    /** The loop over the settings of one frame. */
    method ApplyAll(settings: seq<Setting>)
      requires Valid()
      modifies decoder
      ensures Valid() && State() == old(State()).(table := ApplySettings(old(State()).table, settings))
    {
      assert settings[0..] == settings;
      for i := 0 to |settings|
        invariant Valid()
        invariant ApplySettings(decoder.Contents(), settings[i..]) == ApplySettings(old(decoder.Contents()), settings)
      {
        hide Resize;
        assert settings[i..][1..] == settings[i + 1..];
        if settings[i].identifier == HEADER_TABLE_SIZE {
          decoder.SetMaxTableSize(settings[i].value);
        }
      }
    }

    method HandleOneFrame(f: Frame, maxRequestBytes: nat) returns (r: SessionResult)
      requires Valid() && ValidFrame(f, DEFAULT_MAX_FRAME_SIZE)
      modifies this, decoder
      ensures Valid() && Outcome(State(), r) == HandleFrame(old(State()), f, maxRequestBytes)
    {
      hide HandleHeaders, HandleContinuation, HandleData, FailConnection, ParseSettings, ApplySettings, FrameWire;
      if pendingHeaders.Some? && f.kind != CONTINUATION {
        r := Fail(ExpectedContinuation);
        return;
      }
      r := NOTHING;
      if f.kind == SETTINGS {
        if !IsAck(f) {
          var settings := ReadSettings(f.payload);
          ApplyAll(settings.value);
          r := NOTHING.(output := FrameString(SettingsFrame(true)));
        }
      } else if f.kind == PING {
        if !IsAck(f) {
          r := NOTHING.(output := FrameString(PingFrame(f.payload, true)));
        }
      } else if f.kind == GOAWAY {
        r := NOTHING.(keepConnection := false, closeNow := true);
      } else if f.kind == RST_STREAM {
        // No block is pending here, so the source's test for one of this stream never succeeds.
        streams := streams - {f.streamId};
      } else if f.kind == HEADERS {
        r := HandleHeadersFrame(f, maxRequestBytes);
      } else if f.kind == DATA {
        r := HandleDataFrame(f, maxRequestBytes);
      } else if f.kind == CONTINUATION {
        r := HandleContinuationFrame(f, maxRequestBytes);
      } else if f.kind == PUSH_PROMISE {
        r := Fail(PushPromise);
      }
    }

    /** Handles the frames in the buffer up to the first visible result. */
    method Process(input: Bytes, maxRequestBytes: nat) returns (inputBuffer: Bytes, r: SessionResult)
      requires Valid()
      modifies this, decoder
      ensures Valid() && Processed(State(), inputBuffer, r) == ProcessInput(old(State()), input, maxRequestBytes)
    {
      hide HandleFrame, FailConnection, ParseFrame;
      inputBuffer := input;
      while active && inputBuffer != []
        invariant Valid()
        invariant ProcessInput(State(), inputBuffer, maxRequestBytes)
            == ProcessInput(old(State()), input, maxRequestBytes)
        decreases |inputBuffer|
      {
        if |inputBuffer| > maxRequestBytes {
          r := Fail(BufferExceeded);
          return [], r;
        }
        var parsed := ReadFrame(inputBuffer, DEFAULT_MAX_FRAME_SIZE);
        if parsed.Incomplete? {
          return inputBuffer, NOTHING;
        }
        if parsed.Invalid? {
          r := Fail(BadFrame(parsed.error));
          return [], r;
        }
        inputBuffer := inputBuffer[parsed.consumed..];
        r := HandleOneFrame(parsed.frame, maxRequestBytes);
        if Visible(r) {
          return;
        }
      }
      r := NOTHING;
    }
  }
}
