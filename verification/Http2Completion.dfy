/** That streams do end: which frames end a stream, with which request or response, and that over a
    run every stream whose last octet has arrived ends as its fields and its DATA say (sections 5.1
    and 8.1 of RFC 9113). */
module Http2Completion {
  import opened Wrappers
  import opened Octets
  import opened Http2Frame
  import opened HpackTable
  import HpackBlocks
  import opened Http2Translation
  import opened Http2Session
  import opened Http2Runs
  import opened Http2Histories
  import opened Http2Windows
  import opened Http2Payloads
  import opened Http2Refusals
  import opened Http2Requests

  /** The result is the request that these fields and this body make, of this stream; or, if they
      make none, the 400 response of that stream. Nothing is both, and the connection goes on. */
  ghost predicate Delivers(r: SessionResult, id: U32, fields: seq<HeaderField>, body: Bytes) {
    && (forall request :: r.completed == Some(Completed(id, request)) <==> Built(fields, body) == Some(request))
    && (r.completed.Some? ==> r.completed.value.streamId == id)
    && (r.errorResponse.Some? <==> Built(fields, body) == None)
    && (r.errorResponse.Some? ==>
          r.errorResponse.value == ErrorResponse(400, Ascii("Bad Request\n")) && r.errorStreamId == id)
    && r.keepConnection && !r.closeNow && r.warning.None?
  }

  // ----- one step

  /** A whole header block of a new stream that decodes: the stream is opened, and with END_STREAM
      delivered at once; without, it is stored with its fields and nothing is shown. */
  lemma BlockDelivers(s: Session, id: U32, endStream: bool, block: Bytes, fields: seq<HeaderField>)
    requires IsStreamId(id) && s.pending.None? && id !in s.streams
    requires HpackBlocks.DecodeBlock(block, s.table, false).headers == Ok(fields)
    ensures var o := DecodeHeaders(s, id, endStream, block);
      && o.session.table == HpackBlocks.DecodeBlock(block, s.table, false).table && o.session.pending.None?
      && o.session.active == s.active && o.session.connectionWindow == s.connectionWindow
      && o.session.lastClientStreamId == (if id > s.lastClientStreamId then id else s.lastClientStreamId)
      && if endStream then
           Delivers(o.result, id, fields, []) && o.result.output == [] && o.session.streams == s.streams
         else
           && o.result == NOTHING
           && o.session.streams == s.streams[id := Stream(id, true, Open, 65535, fields, [])]
  {
    hide HpackBlocks.DecodeBlock, Built;
    var o := DecodeHeaders(s, id, endStream, block);
    if endStream {
      assert s.streams[id := NEW_STREAM.(id := id, headersReceived := true, headers := fields,
                                         lifecycle := HalfClosedRemote)] - {id} == s.streams;
    }
  }

  /** The same for a HEADERS frame with END_HEADERS. */
  lemma HeadersDeliver(s: Session, f: Frame, block: Bytes, fields: seq<HeaderField>, maxRequestBytes: nat)
    requires ValidFrame(f, DEFAULT_MAX_FRAME_SIZE) && f.kind == HEADERS && s.pending.None? && f.flags / 0x4 % 2 == 1
    requires f.streamId % 2 == 1 && f.streamId > s.lastClientStreamId && f.streamId !in s.streams
    requires CarriesBlock(f, block) && |block| <= maxRequestBytes
    requires HpackBlocks.DecodeBlock(block, s.table, false).headers == Ok(fields)
    ensures var o := HandleFrame(s, f, maxRequestBytes);
      && o.session.lastClientStreamId == f.streamId
      && if f.flags % 2 == 1 then
           Delivers(o.result, f.streamId, fields, []) && o.result.output == [] && o.session.streams == s.streams
         else
           && o.result == NOTHING
           && o.session.streams == s.streams[f.streamId := Stream(f.streamId, true, Open, 65535, fields, [])]
  {
    hide HpackBlocks.DecodeBlock, Delivers, CarriesBlock, DecodeHeaders, HandleFrame, ValidFrame;
    OnHeaders(s, f, maxRequestBytes);
    HeadersTaken(s, f, block, maxRequestBytes);
    BlockDelivers(s, f.streamId, f.flags % 2 == 1, block, fields);
  }

  /** And for the CONTINUATION frame that ends a block, with the END_STREAM of its HEADERS frame. */
  lemma ContinuationDelivers(s: Session, f: Frame, fields: seq<HeaderField>, maxRequestBytes: nat)
    requires ValidFrame(f, DEFAULT_MAX_FRAME_SIZE) && f.kind == CONTINUATION && f.flags / 0x4 % 2 == 1
    requires s.pending.Some? && s.pending.value.streamId == f.streamId && f.streamId !in s.streams
    requires |s.pending.value.block| + |f.payload| <= maxRequestBytes
    requires HpackBlocks.DecodeBlock(s.pending.value.block + f.payload, s.table, false).headers == Ok(fields)
    ensures var o := HandleFrame(s, f, maxRequestBytes);
      && o.session.pending.None?
      && if s.pending.value.endStream then
           Delivers(o.result, f.streamId, fields, []) && o.result.output == [] && o.session.streams == s.streams
         else
           && o.result == NOTHING
           && o.session.streams == s.streams[f.streamId := Stream(f.streamId, true, Open, 65535, fields, [])]
  {
    hide HpackBlocks.DecodeBlock, Delivers, DecodeHeaders, HandleFrame, ValidFrame;
    var p := s.pending.value;
    OnContinuation(s, f, maxRequestBytes);
    ContinuationTaken(s, f, maxRequestBytes);
    BlockDelivers(s.(pending := None), f.streamId, p.endStream, p.block + f.payload, fields);
  }

  /** DATA of an open stream within all limits is put to its body; with END_STREAM the stream is
      delivered with it, and without, it stays. */
  lemma DataDelivers(s: Session, f: Frame, data: Bytes, maxRequestBytes: nat)
    requires ValidFrame(f, DEFAULT_MAX_FRAME_SIZE) && f.kind == DATA && s.pending.None? && Carries(f, data)
    requires f.streamId in s.streams
    requires var stream := s.streams[f.streamId];
      && stream.headersReceived && stream.lifecycle == Open
      && |data| <= s.connectionWindow && |data| <= stream.inboundWindow && |stream.body| + |data| <= maxRequestBytes
    ensures var o, stream := HandleFrame(s, f, maxRequestBytes), s.streams[f.streamId];
      if f.flags % 2 == 1 then
        && Delivers(o.result, f.streamId, stream.headers, stream.body + data)
        && o.session == s.(streams := s.streams - {f.streamId})
      else
        && o.result == NOTHING.(output := o.result.output)
        && o.session == s.(streams := s.streams[f.streamId := stream.(body := stream.body + data)])
  {
    hide Built, WindowUpdates, Unpadded, Carries, HandleFrame, ValidFrame, RstStreamFrame, FailureText, FailureCode;
    CarriedData(f, data);
    OnData(s, f, maxRequestBytes);
    var stream := s.streams[f.streamId];
    var last := stream.(body := stream.body + data, lifecycle := HalfClosedRemote);
    assert s.streams[f.streamId := last] - {f.streamId} == s.streams - {f.streamId};
  }

  // ----- a stream ends exactly when its last octet arrives

  /** The frame makes this header block of its stream complete; `endStream` is what its HEADERS frame
      says. */
  ghost predicate BlockArrives(s: Session, f: Frame, block: Bytes, endStream: bool) {
    && f.flags / 0x4 % 2 == 1
    && if f.kind == HEADERS then
         s.pending.None? && CarriesBlock(f, block) && f.streamId % 2 == 1
         && f.streamId > s.lastClientStreamId && endStream == (f.flags % 2 == 1)
       else
         && f.kind == CONTINUATION && s.pending.Some? && s.pending.value.streamId == f.streamId
         && block == s.pending.value.block + f.payload && endStream == s.pending.value.endStream
  }

  /** The whole block of a new stream has arrived, within the limit, and it decodes to these fields. */
  ghost predicate FieldsArrive(s: Session, f: Frame, maxRequestBytes: nat, endStream: bool, fields: seq<HeaderField>) {
    f.streamId !in s.streams && exists block ::
      && BlockArrives(s, f, block, endStream) && |block| <= maxRequestBytes
      && HpackBlocks.DecodeBlock(block, s.table, false).headers == Ok(fields)
  }

  /** DATA of a stored stream has arrived, within the limit. */
  ghost predicate DataArrives(s: Session, f: Frame, maxRequestBytes: nat, data: Bytes) {
    && f.kind == DATA && s.pending.None? && f.streamId in s.streams && Carries(f, data)
    && |s.streams[f.streamId].body| + |data| <= maxRequestBytes
  }

  /** With the frame the last octet of its stream has arrived. */
  ghost predicate LastArrives(s: Session, f: Frame, maxRequestBytes: nat) {
    || (exists fields :: FieldsArrive(s, f, maxRequestBytes, true, fields))
    || (f.flags % 2 == 1 && exists data :: DataArrives(s, f, maxRequestBytes, data))
  }

  lemma FieldsDeliver(s: Session, f: Frame, maxRequestBytes: nat, endStream: bool, fields: seq<HeaderField>)
    requires ValidFrame(f, DEFAULT_MAX_FRAME_SIZE) && FieldsArrive(s, f, maxRequestBytes, endStream, fields)
    ensures var o := HandleFrame(s, f, maxRequestBytes);
      && (endStream ==> Delivers(o.result, f.streamId, fields, []) && o.session.streams == s.streams)
      && (!endStream ==>
            && o.result == NOTHING
            && o.session.streams == s.streams[f.streamId := Stream(f.streamId, true, Open, 65535, fields, [])])
  {
    hide HpackBlocks.DecodeBlock, Delivers, CarriesBlock, HandleFrame, ValidFrame;
    var block :| BlockArrives(s, f, block, endStream) && |block| <= maxRequestBytes
        && HpackBlocks.DecodeBlock(block, s.table, false).headers == Ok(fields);
    if f.kind == HEADERS {
      HeadersDeliver(s, f, block, fields, maxRequestBytes);
    } else {
      ContinuationDelivers(s, f, fields, maxRequestBytes);
    }
  }

  lemma ArrivedDelivers(s: Session, f: Frame, maxRequestBytes: nat, data: Bytes)
    requires Invariant(s) && ValidFrame(f, DEFAULT_MAX_FRAME_SIZE) && DataArrives(s, f, maxRequestBytes, data)
    ensures AcceptedData(s, f, maxRequestBytes) == Some(data)
    ensures var o, stream := HandleFrame(s, f, maxRequestBytes), s.streams[f.streamId];
      if f.flags % 2 == 1 then
        && Delivers(o.result, f.streamId, stream.headers, stream.body + data)
        && o.session == s.(streams := s.streams - {f.streamId})
      else
        && o.result == NOTHING.(output := o.result.output)
        && o.session == s.(streams := s.streams[f.streamId := stream.(body := stream.body + data)])
  {
    hide Delivers, Carries, HandleFrame, Unpadded;
    CarriedData(f, data);
    DataNeverBlocked(s, f);
    hide ValidFrame, Invariant;
    DataDelivers(s, f, data, maxRequestBytes);
  }

  lemma PayloadCarried(f: Frame)
    ensures Unpadded(f).Some? ==> Carries(f, Unpadded(f).value)
    ensures HeaderBlockPayload(f).Some? ==> CarriesBlock(f, HeaderBlockPayload(f).value)
  {
    UnpaddedExactly(f);
    if Unpadded(f).Some? && f.flags / 0x20 % 2 == 1 && |Unpadded(f).value| >= 5 {
      var all := Unpadded(f).value;
      assert all[..5] + all[5..] == all;
    }
    hide Unpadded;
  }

  /** A decoded block ends nothing unless it is the whole of a new stream. */
  lemma EndedByBlock(s: Session, id: U32, endStream: bool, block: Bytes)
    requires IsStreamId(id) && s.pending.None? && (id in s.streams ==> s.streams[id].headersReceived)
    ensures Ended(DecodeHeaders(s, id, endStream, block).result).Some? ==>
              && endStream && id !in s.streams && HpackBlocks.DecodeBlock(block, s.table, false).headers.Ok?
  {
    hide HpackBlocks.DecodeBlock, WithHeaders, CompleteStream, RstStreamFrame;
  }

  lemma EndedByHeaders(s: Session, f: Frame, maxRequestBytes: nat)
    requires Invariant(s) && ValidFrame(f, DEFAULT_MAX_FRAME_SIZE) && f.kind == HEADERS && s.pending.None?
    requires Ended(HandleFrame(s, f, maxRequestBytes).result).Some?
    ensures exists fields :: FieldsArrive(s, f, maxRequestBytes, true, fields)
  {
    OnHeaders(s, f, maxRequestBytes);
    if f.streamId in s.streams {
      assert StreamInvariant(s, f.streamId);
    }
    hide DecodeHeaders, HeaderBlockPayload, CarriesBlock, HpackBlocks.DecodeBlock, HandleFrame, ValidFrame, Invariant,
         FailureText, FailureCode, RstStreamFrame;
    PayloadCarried(f);
    var block := HeaderBlockPayload(f).value;
    EndedByBlock(s, f.streamId, EndsStream(f), block);
    assert BlockArrives(s, f, block, true);
    assert FieldsArrive(s, f, maxRequestBytes, true, HpackBlocks.DecodeBlock(block, s.table, false).headers.value);
  }

  lemma EndedByContinuation(s: Session, f: Frame, maxRequestBytes: nat)
    requires Invariant(s) && ValidFrame(f, DEFAULT_MAX_FRAME_SIZE) && f.kind == CONTINUATION
    requires Ended(HandleFrame(s, f, maxRequestBytes).result).Some?
    ensures exists fields :: FieldsArrive(s, f, maxRequestBytes, true, fields)
  {
    OnContinuation(s, f, maxRequestBytes);
    if f.streamId in s.streams {
      assert StreamInvariant(s, f.streamId);
    }
    hide DecodeHeaders, HpackBlocks.DecodeBlock, HandleFrame, ValidFrame, Invariant, FailureText, FailureCode,
         RstStreamFrame, StreamInvariant;
    var p := s.pending.value;
    var block := p.block + f.payload;
    EndedByBlock(s.(pending := None), f.streamId, p.endStream, block);
    assert BlockArrives(s, f, block, true);
    assert FieldsArrive(s, f, maxRequestBytes, true, HpackBlocks.DecodeBlock(block, s.table, false).headers.value);
  }

  lemma EndedByData(s: Session, f: Frame, maxRequestBytes: nat)
    requires ValidFrame(f, DEFAULT_MAX_FRAME_SIZE) && f.kind == DATA && s.pending.None?
    requires Ended(HandleFrame(s, f, maxRequestBytes).result).Some?
    ensures f.flags % 2 == 1 && exists data :: DataArrives(s, f, maxRequestBytes, data)
  {
    OnData(s, f, maxRequestBytes);
    hide Built, WindowUpdates, Unpadded, HandleFrame, ValidFrame, FailureText, FailureCode, RstStreamFrame, Carries;
    PayloadCarried(f);
    assert DataArrives(s, f, maxRequestBytes, DataPayload(f).value);
  }

  lemma EndedByOthers(s: Session, f: Frame, maxRequestBytes: nat)
    requires ValidFrame(f, DEFAULT_MAX_FRAME_SIZE)
    requires f.kind !in {DATA, HEADERS, CONTINUATION} || (s.pending.Some? && f.kind != CONTINUATION)
    ensures Ended(HandleFrame(s, f, maxRequestBytes).result).None?
  {
    hide FailureText, FailureCode, FrameString, ApplySettings, ParseSettings;
  }

  lemma ArrivalEnds(s: Session, f: Frame, maxRequestBytes: nat)
    requires Invariant(s) && ValidFrame(f, DEFAULT_MAX_FRAME_SIZE) && LastArrives(s, f, maxRequestBytes)
    ensures Ended(HandleFrame(s, f, maxRequestBytes).result) == Some(f.streamId)
  {
    hide Invariant, ValidFrame, HandleFrame, FieldsArrive, DataArrives, Built;
    if exists fields :: FieldsArrive(s, f, maxRequestBytes, true, fields) {
      var fields :| FieldsArrive(s, f, maxRequestBytes, true, fields);
      FieldsDeliver(s, f, maxRequestBytes, true, fields);
    } else {
      var data :| DataArrives(s, f, maxRequestBytes, data);
      ArrivedDelivers(s, f, maxRequestBytes, data);
    }
  }

  /** A frame ends a stream if and only if the last octet of its stream arrives with it: the whole
      header block of a new stream that says so, or DATA of a stored one with END_STREAM; and it is
      that stream then. */
  lemma EndsExactly(s: Session, f: Frame, maxRequestBytes: nat)
    requires Invariant(s) && ValidFrame(f, DEFAULT_MAX_FRAME_SIZE)
    ensures Ended(HandleFrame(s, f, maxRequestBytes).result)
        == if LastArrives(s, f, maxRequestBytes) then Some(f.streamId) else None
  {
    hide Invariant, ValidFrame, HandleFrame, FieldsArrive, DataArrives, Ended;
    if LastArrives(s, f, maxRequestBytes) {
      ArrivalEnds(s, f, maxRequestBytes);
    } else if Ended(HandleFrame(s, f, maxRequestBytes).result).Some? {
      if f.kind !in {DATA, HEADERS, CONTINUATION} || (s.pending.Some? && f.kind != CONTINUATION) {
        EndedByOthers(s, f, maxRequestBytes);
      } else if f.kind == HEADERS {
        EndedByHeaders(s, f, maxRequestBytes);
      } else if f.kind == CONTINUATION {
        EndedByContinuation(s, f, maxRequestBytes);
      } else {
        EndedByData(s, f, maxRequestBytes);
      }
    }
  }

  // ----- over a run

  lemma ArrivedFieldsAreDecoded(s: Session, f: Frame, maxRequestBytes: nat, endStream: bool, fields: seq<HeaderField>)
    requires FieldsArrive(s, f, maxRequestBytes, endStream, fields)
    ensures DecodedBy(s, Receive(f)) == Some(fields)
  {
    hide HpackBlocks.DecodeBlock, HeaderBlockPayload, CarriesBlock;
    var block :| BlockArrives(s, f, block, endStream) && |block| <= maxRequestBytes
        && HpackBlocks.DecodeBlock(block, s.table, false).headers == Ok(fields);
    if f.kind == HEADERS {
      CarriedBlock(f, block);
    }
  }

  /** What is to be delivered for stream `id` after `n` steps: its fields and its octets. */
  ghost predicate DeliversGathered(s: Session, steps: seq<Step>, n: nat, maxRequestBytes: nat, id: U32,
      r: SessionResult)
    requires ValidSteps(steps) && n <= |steps|
  {
    && OpenedWith(s, steps, n, maxRequestBytes, id).Some?
    && Delivers(r, id, OpenedWith(s, steps, n, maxRequestBytes, id).value,
                Gathered(s, steps, n, maxRequestBytes, id))
  }

  /** The step is the arrival of a frame, in a good state, of a stream that is new to the run. */
  ghost predicate Receives(s: Session, steps: seq<Step>, j: nat, maxRequestBytes: nat, f: Frame) {
    && GoodRun(s, steps, maxRequestBytes) && j < |steps| && steps[j] == Receive(f)
    && f.streamId !in s.streams && f.streamId > s.lastClientStreamId
  }

  lemma BeforeArrival(s: Session, steps: seq<Step>, j: nat, maxRequestBytes: nat, f: Frame)
    requires Receives(s, steps, j, maxRequestBytes, f)
    ensures ValidFrame(f, DEFAULT_MAX_FRAME_SIZE) && Invariant(After(s, steps, j, maxRequestBytes))
    ensures OutcomeAt(s, steps, j, maxRequestBytes)
        == HandleFrame(After(s, steps, j, maxRequestBytes), f, maxRequestBytes)
  {
    hide SafeDrops, Invariant, HandleFrame;
    assert steps[j].Valid();
    RunKeepsInvariant(s, steps, j, maxRequestBytes);
  }

  lemma DataIsDelivered(s: Session, steps: seq<Step>, j: nat, maxRequestBytes: nat, f: Frame, data: Bytes)
    requires Receives(s, steps, j, maxRequestBytes, f) && f.flags % 2 == 1
    requires DataArrives(After(s, steps, j, maxRequestBytes), f, maxRequestBytes, data)
    ensures DeliversGathered(s, steps, j + 1, maxRequestBytes, f.streamId,
                             OutcomeAt(s, steps, j, maxRequestBytes).result)
  {
    var before, id := After(s, steps, j, maxRequestBytes), f.streamId;
    BeforeArrival(s, steps, j, maxRequestBytes, f);
    hide StepOf, Invariant, SafeDrops, HandleFrame, ValidFrame, Delivers, AcceptedData;
    ArrivedDelivers(before, f, maxRequestBytes, data);
    StoredBodyIsGathered(s, steps, j, maxRequestBytes, id);
    StoredHeaders(s, steps, j, maxRequestBytes, id);
    hide Carries;
    assert Appended(before, steps[j], maxRequestBytes, id) == data;
  }

  lemma NotGone(s: Session, steps: seq<Step>, j: nat, maxRequestBytes: nat, id: U32)
    requires GoodRun(s, steps, maxRequestBytes) && j < |steps| && id !in s.streams && id > s.lastClientStreamId
    requires Ended(OutcomeAt(s, steps, j, maxRequestBytes).result) == Some(id)
    ensures !Gone(After(s, steps, j, maxRequestBytes), id)
  {
    hide StepOf, Invariant, SafeDrops, Ended;
    RunKeepsInvariant(s, steps, j, maxRequestBytes);
  }

  lemma FieldsAreDelivered(s: Session, steps: seq<Step>, j: nat, maxRequestBytes: nat, f: Frame,
      fields: seq<HeaderField>)
    requires Receives(s, steps, j, maxRequestBytes, f)
    requires FieldsArrive(After(s, steps, j, maxRequestBytes), f, maxRequestBytes, true, fields)
    ensures DeliversGathered(s, steps, j + 1, maxRequestBytes, f.streamId,
                             OutcomeAt(s, steps, j, maxRequestBytes).result)
  {
    var before, id := After(s, steps, j, maxRequestBytes), f.streamId;
    BeforeArrival(s, steps, j, maxRequestBytes, f);
    FieldsMeanNew(before, f, maxRequestBytes, true, fields);
    hide StepOf, Invariant, SafeDrops, HandleFrame, ValidFrame, FieldsArrive, Delivers, Appended, DecodedBy, Ended;
    FieldsDeliver(before, f, maxRequestBytes, true, fields);
    DeliveredEnds(HandleFrame(before, f, maxRequestBytes).result, id, fields, []);
    NotGone(s, steps, j, maxRequestBytes, id);
    StoredBodyIsGathered(s, steps, j, maxRequestBytes, id);
    ArrivedFieldsAreDecoded(before, f, maxRequestBytes, true, fields);
    OpenedNow(s, steps, j, maxRequestBytes, id);
    assert Appended(before, steps[j], maxRequestBytes, id) == [] by { OnlyDataIsAppended(before, f, maxRequestBytes); }
  }

  lemma FieldsMeanNew(s: Session, f: Frame, maxRequestBytes: nat, endStream: bool, fields: seq<HeaderField>)
    requires FieldsArrive(s, f, maxRequestBytes, endStream, fields)
    ensures f.streamId !in s.streams && f.kind != DATA
  {
    hide HpackBlocks.DecodeBlock, CarriesBlock;
  }

  lemma OnlyDataIsAppended(s: Session, f: Frame, maxRequestBytes: nat)
    requires f.kind != DATA
    ensures Appended(s, Receive(f), maxRequestBytes, f.streamId) == []
  {
  }

  lemma DeliveredEnds(r: SessionResult, id: U32, fields: seq<HeaderField>, body: Bytes)
    requires Delivers(r, id, fields, body)
    ensures Ended(r) == Some(id)
  {
    hide Built;
    if Built(fields, body).Some? {
      assert r.completed == Some(Completed(id, Built(fields, body).value));
    }
  }

  lemma OpenedNow(s: Session, steps: seq<Step>, j: nat, maxRequestBytes: nat, id: U32)
    requires ValidSteps(steps) && j < |steps| && id !in After(s, steps, j, maxRequestBytes).streams
    requires Ended(OutcomeAt(s, steps, j, maxRequestBytes).result) == Some(id)
    ensures OpenedWith(s, steps, j + 1, maxRequestBytes, id)
        == DecodedBy(After(s, steps, j, maxRequestBytes), steps[j])
  {
    hide StepOf, DecodedBy, Ended;
  }

  /** Over any run, when the last octet of a new stream arrives it is delivered: the request that
      the header list decoded at its opening and exactly the octets accepted for it, in order,
      make, or the 400 response if they make none. */
  lemma StreamsAreDelivered(s: Session, steps: seq<Step>, j: nat, maxRequestBytes: nat, f: Frame)
    requires Receives(s, steps, j, maxRequestBytes, f)
    requires LastArrives(After(s, steps, j, maxRequestBytes), f, maxRequestBytes)
    ensures DeliversGathered(s, steps, j + 1, maxRequestBytes, f.streamId,
                             OutcomeAt(s, steps, j, maxRequestBytes).result)
  {
    var before := After(s, steps, j, maxRequestBytes);
    hide StepOf, Receives, FieldsArrive, DataArrives, DeliversGathered;
    if exists fields :: FieldsArrive(before, f, maxRequestBytes, true, fields) {
      var fields :| FieldsArrive(before, f, maxRequestBytes, true, fields);
      FieldsAreDelivered(s, steps, j, maxRequestBytes, f, fields);
    } else {
      var data :| DataArrives(before, f, maxRequestBytes, data);
      DataIsDelivered(s, steps, j, maxRequestBytes, f, data);
    }
  }
}
