/** What a client can tell from the session's output, and that a frame concerns only its own
    stream (sections 5.4, 6.5 and 6.7 of RFC 9113). */
module Http2Answers {
  import opened Wrappers
  import opened Octets
  import opened Http2Frame
  import opened HpackTable
  import HpackBlocks
  import opened Http2Translation
  import opened Http2Session

  /** The frames of an output that make up all of it. */
  ghost predicate Reads(output: Bytes, frames: seq<Frame>) {
    (forall i :: 0 <= i < |frames| ==> ValidFrame(frames[i], DEFAULT_MAX_FRAME_SIZE))
    && output == WireOfAll(frames) && FramesIn(output) == frames
  }

  function WireOfAll(frames: seq<Frame>): Bytes
    requires forall i :: 0 <= i < |frames| ==> ValidFrame(frames[i], DEFAULT_MAX_FRAME_SIZE)
  {
    if frames == [] then []
    else
      assert ValidFrame(frames[0], DEFAULT_MAX_FRAME_SIZE);
      FrameWire(frames[0]) + WireOfAll(frames[1..])
  }

  lemma ReadsNothing()
    ensures Reads([], [])
  {
  }

  lemma ReadsMore(f: Frame, output: Bytes, frames: seq<Frame>)
    requires ValidFrame(f, DEFAULT_MAX_FRAME_SIZE) && Reads(output, frames)
    ensures Reads(FrameWire(f) + output, [f] + frames)
  {
    FramesInAfter(f, output);
    hide FramesIn, FrameWire;
    assert ([f] + frames)[1..] == frames;
    assert forall i :: 0 < i < |[f] + frames| ==> ([f] + frames)[i] == frames[i - 1];
  }

  lemma ReadsOne(f: Frame)
    requires ValidFrame(f, DEFAULT_MAX_FRAME_SIZE)
    ensures Reads(FrameString(f), [f])
  {
    hide FrameWire, Reads;
    ReadsNothing();
    ReadsMore(f, [], []);
    assert FrameWire(f) + [] == FrameWire(f) && [f] + [] == [f];
  }

  lemma ReadsUpdates(streamId: U32, n: nat)
    requires IsStreamId(streamId) && 0 < n <= DEFAULT_MAX_FRAME_SIZE
    ensures Reads(WindowUpdates(streamId, n), [WindowUpdateFrame(0, n), WindowUpdateFrame(streamId, n)])
  {
    var a, b := WindowUpdateFrame(0, n), WindowUpdateFrame(streamId, n);
    U32RoundTrip(n, []);
    assert U32Bytes(n) + [] == U32Bytes(n);
    hide FrameWire, Reads, U32Bytes;
    ReadsOne(b);
    ReadsMore(a, FrameWire(b), [b]);
    assert [a] + [b] == [a, b];
  }

  // ----- the answers

  /** The connection has failed: one GOAWAY frame, and nothing is processed any more. */
  ghost predicate Failed(s: Session, o: Outcome) {
    exists e :: o == FailConnection(s, e)
        && Reads(o.result.output, [GoawayFrame(FailureCode(e), Ascii(FailureText(e)))])
  }

  /** The stream was reset: one RST_STREAM frame, and the stream is gone. */
  ghost predicate WasReset(o: Outcome, streamId: U32) {
    streamId !in o.session.streams && exists code :: Reads(o.result.output, [RstStreamFrame(streamId, code)])
  }

  lemma FailureReadsBack(s: Session, e: Failure)
    ensures Failed(s, FailConnection(s, e))
  {
    hide FailureText, FailureCode, Reads;
    ReadsOne(GoawayFrame(FailureCode(e), Ascii(FailureText(e))));
  }

  lemma ResetReadsBack(s: Session, streamId: U32, code: U32)
    requires IsStreamId(streamId)
    ensures WasReset(ResetStreamResult(s, streamId, code), streamId)
  {
    hide Reads;
    ReadsOne(RstStreamFrame(streamId, code));
  }

  lemma DecodeHeadersAnswer(s: Session, streamId: U32, endStream: bool, block: Bytes)
    requires IsStreamId(streamId)
    ensures var o := DecodeHeaders(s, streamId, endStream, block); o.result.output == [] || WasReset(o, streamId)
  {
    hide HpackBlocks.DecodeBlock, Built, WasReset;
    var s1 := s.(table := HpackBlocks.DecodeBlock(block, s.table, false).table);
    ResetReadsBack(s1, streamId, ERROR_COMPRESSION);
    ResetReadsBack(s1, streamId, ERROR_PROTOCOL);
    hide ResetStreamResult;
    SameAnswer(ResetStreamResult(s1, streamId, ERROR_COMPRESSION), DecodeHeaders(s, streamId, endStream, block),
        streamId);
  }

  lemma SameAnswer(a: Outcome, b: Outcome, streamId: U32)
    ensures a.session.streams == b.session.streams && a.result.output == b.result.output ==>
        WasReset(a, streamId) == WasReset(b, streamId)
  {
    hide Reads;
  }

  lemma HeadersAnswer(s: Session, f: Frame, maxRequestBytes: nat)
    requires IsStreamId(f.streamId)
    ensures var o := HandleHeaders(s, f, maxRequestBytes);
        o.result.output == [] || Failed(s, o) || WasReset(o, f.streamId)
  {
    hide DecodeHeaders, FailConnection, ResetStreamResult, Failed, WasReset;
    FailureReadsBack(s, HeadersDuringPending);
    FailureReadsBack(s, EvenStreamId);
    ResetReadsBack(s, f.streamId, ERROR_STREAM_CLOSED);
    ResetReadsBack(s, f.streamId, ERROR_PROTOCOL);
    ResetReadsBack(s, f.streamId, ERROR_ENHANCE_YOUR_CALM);
    if HeaderBlockPayload(f).Some? {
      DecodeHeadersAnswer(s, f.streamId, EndsStream(f), HeaderBlockPayload(f).value);
    }
  }

  lemma ContinuationAnswer(s: Session, f: Frame, maxRequestBytes: nat)
    requires IsStreamId(f.streamId)
    ensures var o := HandleContinuation(s, f, maxRequestBytes);
        o.result.output == [] || Failed(s, o) || WasReset(o, f.streamId)
  {
    hide DecodeHeaders, FailConnection, ResetStreamResult, Failed, WasReset;
    FailureReadsBack(s, UnmatchedContinuation);
    var s1 := s.(pending := None);
    ResetReadsBack(s1, f.streamId, ERROR_ENHANCE_YOUR_CALM);
    if s.pending.Some? && s.pending.value.streamId == f.streamId {
      DecodeHeadersAnswer(s1, f.streamId, s.pending.value.endStream, s.pending.value.block + f.payload);
    }
  }

  /** The credit for an accepted DATA frame, to the connection and to the stream. */
  ghost predicate GivesCredit(o: Outcome, streamId: U32, n: nat) {
    n > 0 && n <= DEFAULT_MAX_FRAME_SIZE
        && Reads(o.result.output, [WindowUpdateFrame(0, n), WindowUpdateFrame(streamId, n)])
  }

  lemma DataAnswer(s: Session, f: Frame, maxRequestBytes: nat)
    requires ValidFrame(f, DEFAULT_MAX_FRAME_SIZE) && IsStreamId(f.streamId)
    ensures var o := HandleData(s, f, maxRequestBytes);
      || o.result.output == [] || Failed(s, o) || WasReset(o, f.streamId)
      || (AcceptedData(s, f, maxRequestBytes).Some?
          && GivesCredit(o, f.streamId, |AcceptedData(s, f, maxRequestBytes).value|))
  {
    hide FailConnection, ResetStreamResult, Failed, WasReset, Reads, Built, WindowUpdates;
    FailureReadsBack(s, WindowExceeded);
    ResetReadsBack(s, f.streamId, ERROR_STREAM_CLOSED);
    ResetReadsBack(s, f.streamId, ERROR_PROTOCOL);
    ResetReadsBack(s, f.streamId, ERROR_ENHANCE_YOUR_CALM);
    if AcceptedData(s, f, maxRequestBytes).Some? {
      var n := |AcceptedData(s, f, maxRequestBytes).value|;
      NoUpdates(f.streamId);
      if n > 0 {
        ReadsUpdates(f.streamId, n);
      }
      assert WindowUpdates(f.streamId, n) + [] == WindowUpdates(f.streamId, n);
    }
  }

  lemma NoUpdates(streamId: U32)
    requires IsStreamId(streamId)
    ensures WindowUpdates(streamId, 0) == []
  {
  }

  /** Whatever frame arrives, the client can read the session's answer as frames, and it is one
      of these: nothing; the acknowledgement of a SETTINGS frame; the acknowledgement of a PING
      frame with the same eight octets; a GOAWAY frame, when the connection has failed; the
      RST_STREAM frame of the stream, which is then gone; or the credit for the octets of an
      accepted DATA frame. Between header blocks SETTINGS and PING frames that ask for it are always
      acknowledged, and a PING changes nothing. */
  lemma AnswersReadBack(s: Session, f: Frame, maxRequestBytes: nat)
    requires ValidFrame(f, DEFAULT_MAX_FRAME_SIZE)
    ensures var o := HandleFrame(s, f, maxRequestBytes);
      || o.result.output == []
      || Failed(s, o)
      || (f.kind == SETTINGS && !IsAck(f) && Reads(o.result.output, [SettingsFrame(true)]))
      || (f.kind == PING && !IsAck(f) && Reads(o.result.output, [PingFrame(f.payload, true)]))
      || (f.kind in {HEADERS, CONTINUATION, DATA} && WasReset(o, f.streamId))
      || (f.kind == DATA && AcceptedData(s, f, maxRequestBytes).Some?
          && GivesCredit(o, f.streamId, |AcceptedData(s, f, maxRequestBytes).value|))
    ensures s.pending.None? && !IsAck(f) ==>
              var o := HandleFrame(s, f, maxRequestBytes);
              && (f.kind == SETTINGS ==>
                    o.session.streams == s.streams && Reads(o.result.output, [SettingsFrame(true)]))
              && (f.kind == PING ==> o.session == s && Reads(o.result.output, [PingFrame(f.payload, true)]))
  {
    hide FailConnection, Failed, WasReset, Reads, GivesCredit, AcceptedData, HandleHeaders, HandleContinuation,
         HandleData;
    FailureReadsBack(s, ExpectedContinuation);
    FailureReadsBack(s, PushPromise);
    ReadsOne(SettingsFrame(true));
    if f.kind == PING {
      ReadsOne(PingFrame(f.payload, true));
    } else if f.kind == HEADERS {
      HeadersAnswer(s, f, maxRequestBytes);
    } else if f.kind == CONTINUATION {
      ContinuationAnswer(s, f, maxRequestBytes);
    } else if f.kind == DATA {
      DataAnswer(s, f, maxRequestBytes);
    }
  }

  /** The last HEADER_TABLE_SIZE, number 1, of a SETTINGS frame is the table's limit from then on. */
  lemma {:induction false} LastTableSizeCounts(table: Table, settings: seq<Setting>, i: nat)
    requires i < |settings| && settings[i].identifier == 1
    requires forall j :: i < j < |settings| ==> settings[j].identifier != 1
    ensures ApplySettings(table, settings).maxSize == settings[i].value
    decreases |settings|
  {
    var next := if settings[0].identifier == 1 then Resize(table, settings[0].value) else table;
    assert forall j :: 0 <= j < |settings[1..]| ==> settings[1..][j] == settings[j + 1];
    if i == 0 {
      OtherSettingsChangeNothing(next, settings[1..]);
    } else {
      LastTableSizeCounts(next, settings[1..], i - 1);
    }
  }

  lemma {:induction false} OtherSettingsChangeNothing(table: Table, settings: seq<Setting>)
    requires forall j :: 0 <= j < |settings| ==> settings[j].identifier != 1
    ensures ApplySettings(table, settings) == table
    decreases |settings|
  {
    if settings != [] {
      assert forall j :: 0 <= j < |settings[1..]| ==> settings[1..][j] == settings[j + 1];
      OtherSettingsChangeNothing(table, settings[1..]);
    }
  }

  // ----- isolation

  /** The two sessions agree on a stream. */
  predicate SameStream(a: Session, b: Session, id: U32) {
    (id in a.streams <==> id in b.streams) && (id in a.streams ==> a.streams[id] == b.streams[id])
  }

  lemma DecodeHeadersIsolates(s: Session, streamId: U32, endStream: bool, block: Bytes, id: U32)
    requires IsStreamId(streamId) && id != streamId
    ensures SameStream(s, DecodeHeaders(s, streamId, endStream, block).session, id)
  {
    hide HpackBlocks.DecodeBlock, Built, RstStreamFrame;
  }

  lemma HeadersAreIsolated(s: Session, f: Frame, maxRequestBytes: nat, id: U32)
    requires IsStreamId(f.streamId) && id != f.streamId && s.active
    requires HandleHeaders(s, f, maxRequestBytes).session.active
    ensures SameStream(s, HandleHeaders(s, f, maxRequestBytes).session, id)
  {
    hide DecodeHeaders, HeaderBlockPayload, FailureText, FailureCode, RstStreamFrame;
    if HeaderBlockPayload(f).Some? {
      DecodeHeadersIsolates(s, f.streamId, EndsStream(f), HeaderBlockPayload(f).value, id);
    }
  }

  lemma ContinuationIsIsolated(s: Session, f: Frame, maxRequestBytes: nat, id: U32)
    requires IsStreamId(f.streamId) && id != f.streamId && s.active
    requires HandleContinuation(s, f, maxRequestBytes).session.active
    ensures SameStream(s, HandleContinuation(s, f, maxRequestBytes).session, id)
  {
    hide DecodeHeaders, FailureText, FailureCode, RstStreamFrame;
    if s.pending.Some? {
      DecodeHeadersIsolates(s.(pending := None), f.streamId, s.pending.value.endStream,
          s.pending.value.block + f.payload, id);
    }
  }

  lemma DataIsIsolated(s: Session, f: Frame, maxRequestBytes: nat, id: U32)
    requires ValidFrame(f, DEFAULT_MAX_FRAME_SIZE) && IsStreamId(f.streamId) && id != f.streamId && s.active
    requires HandleData(s, f, maxRequestBytes).session.active
    ensures SameStream(s, HandleData(s, f, maxRequestBytes).session, id)
  {
    hide Built, WindowUpdates, DataPayload, FailureText, FailureCode, RstStreamFrame;
  }

  /** A frame changes no stream but its own, unless the connection fails. */
  lemma FramesAreIsolated(s: Session, f: Frame, maxRequestBytes: nat, id: U32)
    requires ValidFrame(f, DEFAULT_MAX_FRAME_SIZE) && id != f.streamId && s.active
    requires HandleFrame(s, f, maxRequestBytes).session.active
    ensures SameStream(s, HandleFrame(s, f, maxRequestBytes).session, id)
  {
    hide HandleHeaders, HandleContinuation, HandleData, ParseSettings, ApplySettings, FailureText, FailureCode;
    if s.pending.None? || f.kind == CONTINUATION {
      if f.kind == HEADERS {
        HeadersAreIsolated(s, f, maxRequestBytes, id);
      } else if f.kind == CONTINUATION {
        ContinuationIsIsolated(s, f, maxRequestBytes, id);
      } else if f.kind == DATA {
        DataIsIsolated(s, f, maxRequestBytes, id);
      }
    }
  }
}
