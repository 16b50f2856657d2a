/** What every frame keeps: the invariant between frames, and which streams a frame may open and
    end (sections 5.1 and 5.1.1 of RFC 9113). */
module Http2Runs {
  import opened Wrappers
  import opened Octets
  import opened Http2Frame
  import opened HpackTable
  import HpackBlocks
  import opened Http2Translation
  import opened Http2Session

  // ----- the invariant

  /** A stored stream is open with its headers received, under its own id, with a full window. */
  predicate StreamInvariant(s: Session, id: U32)
    requires id in s.streams
  {
    var stream := s.streams[id];
    && IsStreamId(id) && id % 2 == 1 && id <= s.lastClientStreamId
    && stream.id == id && stream.headersReceived && stream.lifecycle == Open && stream.inboundWindow == INITIAL_WINDOW
  }

  /** A pending block belongs to a stream that is stored or that is new. */
  predicate PendingInvariant(s: Session) {
    s.pending.Some? ==>
      var id := s.pending.value.streamId;
      IsStreamId(id) && id % 2 == 1 && (id in s.streams || id > s.lastClientStreamId)
  }

  ghost predicate Invariant(s: Session) {
    && s.connectionWindow == INITIAL_WINDOW
    && (forall id :: id in s.streams ==> StreamInvariant(s, id))
    && PendingInvariant(s)
  }

  /** The id of the stream that a result ends, with a request or with an error response. */
  function Ended(r: SessionResult): Option<U32> {
    if r.completed.Some? then Some(r.completed.value.streamId)
    else if r.errorResponse.Some? then Some(r.errorStreamId)
    else None
  }

  /** The step from `s` to `o` opens stream `id`: it was not there, and now it is or has ended. */
  predicate Opens(s: Session, o: Outcome, id: U32) {
    id !in s.streams && (id in o.session.streams || Ended(o.result) == Some(id))
  }

  /** What any one step does to the set of streams and to the largest id. */
  ghost predicate GoodStep(s: Session, o: Outcome) {
    && Invariant(o.session)
    && s.lastClientStreamId <= o.session.lastClientStreamId
    && (forall id: U32 :: Opens(s, o, id) ==>
          id % 2 == 1 && s.lastClientStreamId < id == o.session.lastClientStreamId)
    && (forall id :: id in s.streams && id in o.session.streams ==>
        o.session.streams[id].headers == s.streams[id].headers)
    && (Ended(o.result).Some? ==>
          var id := Ended(o.result).value;
          && (id in s.streams || Opens(s, o, id)) && id !in o.session.streams && o.session.pending.None?)
  }

  lemma QuietStep(s: Session, s': Session, output: Bytes, keep: bool, closeNow: bool)
    requires Invariant(s)
    requires s'.streams.Keys <= s.streams.Keys && (forall id :: id in s'.streams ==> s'.streams[id] == s.streams[id])
    requires s'.lastClientStreamId == s.lastClientStreamId && s'.connectionWindow == s.connectionWindow
    requires s'.pending.None? || (s'.pending == s.pending && s'.streams == s.streams)
    ensures GoodStep(s, Outcome(s', NOTHING.(output := output, keepConnection := keep, closeNow := closeNow)))
  {
    forall id | id in s'.streams
      ensures StreamInvariant(s', id)
    {
      assert StreamInvariant(s, id);
    }
  }

  lemma FailKeeps(s: Session, e: Failure)
    requires Invariant(s)
    ensures GoodStep(s, FailConnection(s, e))
  {
    hide FailureText, FailureCode, FrameString, GoodStep;
    var o := FailConnection(s, e);
    QuietStep(s, o.session, o.result.output, false, false);
  }

  lemma ResetKeeps(s: Session, id: U32, code: U32)
    requires Invariant(s) && IsStreamId(id) && s.pending.None?
    ensures GoodStep(s, ResetStreamResult(s, id, code))
  {
    hide FrameString, GoodStep, StreamInvariant;
    var o := ResetStreamResult(s, id, code);
    QuietStep(s, o.session, o.result.output, true, false);
  }

  // ----- each kind of frame keeps the invariant

  lemma NewStreamKeeps(s: Session, id: U32, endStream: bool, headers: seq<HeaderField>)
    requires Invariant(s) && s.pending.None? && IsStreamId(id) && id % 2 == 1
    requires id !in s.streams && id > s.lastClientStreamId
    ensures var s2 := WithHeaders(s, id, endStream, headers);
      GoodStep(s, if endStream then CompleteStream(s2, id) else Outcome(s2, NOTHING))
  {
    hide Built;
    var s2 := WithHeaders(s, id, endStream, headers);
    var o := if endStream then CompleteStream(s2, id) else Outcome(s2, NOTHING);
    forall x | x in o.session.streams
      ensures StreamInvariant(o.session, x)
    {
      if x != id {
        assert StreamInvariant(s, x);
      }
    }
    forall x: U32 | Opens(s, o, x)
      ensures x == id
    {
      assert x in o.session.streams ==> x == id || x in s.streams;
    }
  }

  lemma DecodeHeadersKeeps(s: Session, id: U32, endStream: bool, block: Bytes)
    requires Invariant(s) && s.pending.None? && IsStreamId(id) && id % 2 == 1
    requires id in s.streams || id > s.lastClientStreamId
    ensures GoodStep(s, DecodeHeaders(s, id, endStream, block))
  {
    hide HpackBlocks.DecodeBlock, CompleteStream, WithHeaders;
    var decoded := HpackBlocks.DecodeBlock(block, s.table, false);
    var s1 := s.(table := decoded.table);
    if id in s.streams {
      assert StreamInvariant(s, id);
    }
    assert forall x :: x in s1.streams ==> (StreamInvariant(s1, x) <==> StreamInvariant(s, x));
    assert forall o, x: U32 :: Opens(s1, o, x) <==> Opens(s, o, x);
    if decoded.headers.Err? {
      ResetKeeps(s1, id, ERROR_COMPRESSION);
    } else if id in s.streams && s.streams[id].headersReceived {
      ResetKeeps(s1, id, ERROR_PROTOCOL);
    } else {
      NewStreamKeeps(s1, id, endStream, decoded.headers.value);
    }
  }

  lemma HeadersKeep(s: Session, f: Frame, maxRequestBytes: nat)
    requires Invariant(s) && s.pending.None? && IsStreamId(f.streamId)
    ensures GoodStep(s, HandleHeaders(s, f, maxRequestBytes))
  {
    hide GoodStep, DecodeHeaders, FailConnection, ResetStreamResult, HeaderBlockPayload, StreamInvariant, Opens;
    if f.streamId % 2 == 0 {
      FailKeeps(s, EvenStreamId);
    } else if f.streamId !in s.streams && f.streamId <= s.lastClientStreamId {
      ResetKeeps(s, f.streamId, ERROR_STREAM_CLOSED);
    } else {
      match HeaderBlockPayload(f)
      case None => ResetKeeps(s, f.streamId, ERROR_PROTOCOL);
      case Some(block) =>
        if |block| > maxRequestBytes {
          ResetKeeps(s, f.streamId, ERROR_ENHANCE_YOUR_CALM);
        } else if !EndsHeaders(f) {
          PendingKeeps(s, Pending(f.streamId, EndsStream(f), block));
        } else {
          DecodeHeadersKeeps(s, f.streamId, EndsStream(f), block);
        }
    }
  }

  lemma PendingKeeps(s: Session, p: Pending)
    requires Invariant(s) && PendingInvariant(s.(pending := Some(p)))
    ensures GoodStep(s, Outcome(s.(pending := Some(p)), NOTHING))
  {
    var s' := s.(pending := Some(p));
    assert forall id :: id in s.streams ==> (StreamInvariant(s', id) <==> StreamInvariant(s, id));
  }

  lemma ForgetPending(s: Session)
    requires Invariant(s)
    ensures Invariant(s.(pending := None))
  {
    assert forall id :: id in s.streams ==> (StreamInvariant(s.(pending := None), id) <==> StreamInvariant(s, id));
  }

  lemma SameSteps(s: Session, s1: Session, o: Outcome)
    requires s1.streams == s.streams && s1.lastClientStreamId == s.lastClientStreamId && GoodStep(s1, o)
    ensures GoodStep(s, o)
  {
    hide Invariant;
    assert forall id: U32 :: Opens(s1, o, id) <==> Opens(s, o, id);
  }

  lemma ContinuationKeeps(s: Session, f: Frame, maxRequestBytes: nat)
    requires Invariant(s) && IsStreamId(f.streamId)
    ensures GoodStep(s, HandleContinuation(s, f, maxRequestBytes))
  {
    hide GoodStep, DecodeHeaders, FailConnection, ResetStreamResult, StreamInvariant, Opens;
    if s.pending.None? || s.pending.value.streamId != f.streamId {
      FailKeeps(s, UnmatchedContinuation);
    } else {
      var p := s.pending.value;
      var s1 := s.(pending := None);
      ForgetPending(s);
      if |p.block| + |f.payload| > maxRequestBytes {
        ResetKeeps(s1, f.streamId, ERROR_ENHANCE_YOUR_CALM);
        SameSteps(s, s1, ResetStreamResult(s1, f.streamId, ERROR_ENHANCE_YOUR_CALM));
      } else if !EndsHeaders(f) {
        PendingKeeps(s, p.(block := p.block + f.payload));
      } else {
        DecodeHeadersKeeps(s1, p.streamId, p.endStream, p.block + f.payload);
        SameSteps(s, s1, DecodeHeaders(s1, p.streamId, p.endStream, p.block + f.payload));
      }
    }
  }

  /** Neither the half-closed state nor the window test can stop a DATA frame. */
  lemma DataNeverBlocked(s: Session, f: Frame)
    requires Invariant(s) && ValidFrame(f, DEFAULT_MAX_FRAME_SIZE) && f.streamId in s.streams
    ensures s.streams[f.streamId].headersReceived && s.streams[f.streamId].lifecycle == Open
    ensures DataPayload(f).Some? ==>
              |DataPayload(f).value| <= s.connectionWindow
                  && |DataPayload(f).value| <= s.streams[f.streamId].inboundWindow
  {
    assert StreamInvariant(s, f.streamId);
  }

  lemma GrowKeeps(s: Session, id: U32, body: Bytes, output: Bytes)
    requires Invariant(s) && id in s.streams
    ensures GoodStep(s,
        Outcome(s.(streams := s.streams[id := s.streams[id].(body := body)]), NOTHING.(output := output)))
  {
    assert StreamInvariant(s, id);
    var s' := s.(streams := s.streams[id := s.streams[id].(body := body)]);
    forall x | x in s'.streams
      ensures StreamInvariant(s', x)
    {
      assert StreamInvariant(s, x);
    }
  }

  lemma EndKeeps(s: Session, id: U32, last: Stream, output: Bytes)
    requires Invariant(s) && id in s.streams && s.pending.None? && IsStreamId(id)
    ensures var done := CompleteStream(s.(streams := s.streams[id := last]), id);
      GoodStep(s, done.(result := done.result.(output := output)))
  {
    hide Built;
    var done := CompleteStream(s.(streams := s.streams[id := last]), id);
    forall x | x in done.session.streams
      ensures StreamInvariant(done.session, x)
    {
      assert StreamInvariant(s, x);
    }
  }

  lemma DataKeeps(s: Session, f: Frame, maxRequestBytes: nat)
    requires Invariant(s) && s.pending.None? && ValidFrame(f, DEFAULT_MAX_FRAME_SIZE) && IsStreamId(f.streamId)
    ensures GoodStep(s, HandleData(s, f, maxRequestBytes))
  {
    if f.streamId in s.streams {
      DataNeverBlocked(s, f);
    }
    hide GoodStep, CompleteStream, FailConnection, ResetStreamResult, WindowUpdates, Invariant, Unpadded;
    if f.streamId !in s.streams {
      ResetKeeps(s, f.streamId, ERROR_STREAM_CLOSED);
    } else {
      match DataPayload(f)
      case None => ResetKeeps(s, f.streamId, ERROR_PROTOCOL);
      case Some(payload) =>
        var stream := s.streams[f.streamId];
        if |stream.body| + |payload| > maxRequestBytes {
          ResetKeeps(s, f.streamId, ERROR_ENHANCE_YOUR_CALM);
        } else if EndsStream(f) {
          var last := stream.(body := stream.body + payload, lifecycle := HalfClosedRemote);
          var done := CompleteStream(s.(streams := s.streams[f.streamId := last]), f.streamId);
          EndKeeps(s, f.streamId, last, WindowUpdates(f.streamId, |payload|) + done.result.output);
        } else {
          GrowKeeps(s, f.streamId, stream.body + payload, WindowUpdates(f.streamId, |payload|));
        }
    }
  }

  /** Every frame that the parser accepts keeps the invariant, opens at most a new odd stream
      id above all earlier ones, and ends at most one stream, which is then gone. */
  lemma FrameKeeps(s: Session, f: Frame, maxRequestBytes: nat)
    requires Invariant(s) && ValidFrame(f, DEFAULT_MAX_FRAME_SIZE)
    ensures GoodStep(s, HandleFrame(s, f, maxRequestBytes))
  {
    hide GoodStep, HandleHeaders, HandleContinuation, HandleData, FailConnection, Invariant, FrameString, ApplySettings;
    if s.pending.Some? && f.kind != CONTINUATION {
      FailKeeps(s, ExpectedContinuation);
    } else if f.kind == HEADERS {
      HeadersKeep(s, f, maxRequestBytes);
    } else if f.kind == DATA {
      DataKeeps(s, f, maxRequestBytes);
    } else if f.kind == CONTINUATION {
      ContinuationKeeps(s, f, maxRequestBytes);
    } else if f.kind == PUSH_PROMISE {
      FailKeeps(s, PushPromise);
    } else {
      var o := HandleFrame(s, f, maxRequestBytes);
      QuietStep(s, o.session, o.result.output, o.result.keepConnection, o.result.closeNow);
    }
  }
}
