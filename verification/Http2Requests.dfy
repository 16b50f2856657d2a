/** What the requests of a run are made of: the header list that was decoded when the stream was
    opened, and the DATA octets that were accepted for it (sections 8.1 and 8.3 of RFC 9113). */
module Http2Requests {
  import opened Wrappers
  import opened Octets
  import opened Http2Frame
  import opened HpackTable
  import HpackBlocks
  import opened Http2Translation
  import opened Http2Session
  import opened Http2Runs
  import opened Http2Histories
  import opened Http2Windows

  /** The header block that a step makes complete, for its own stream. */
  function CompletedBlock(s: Session, step: Step): Option<Bytes> {
    if step.Drop? then None
    else
      var f := step.frame;
      if !EndsHeaders(f) then None
      else if f.kind == HEADERS && s.pending.None? then HeaderBlockPayload(f)
      else if f.kind == CONTINUATION && s.pending.Some? && s.pending.value.streamId == f.streamId then
        Some(s.pending.value.block + f.payload)
      else None
  }

  /** The header list in that block, if it can be decoded. */
  ghost function DecodedBy(s: Session, step: Step): Option<seq<HeaderField>> {
    match CompletedBlock(s, step)
    case None => None
    case Some(block) =>
      match HpackBlocks.DecodeBlock(block, s.table, false).headers
      case Ok(headers) => Some(headers)
      case Err(_) => None
  }

  /** A new stream gets the header list of the step, and a request is built from the headers of
      its stream and its body. */
  ghost predicate Builds(s: Session, step: Step, maxRequestBytes: nat, o: Outcome) {
    && (forall id :: id in o.session.streams && id !in s.streams ==>
        DecodedBy(s, step) == Some(o.session.streams[id].headers))
    && (o.result.completed.Some? ==>
          var c := o.result.completed.value;
          exists headers :: HeadersAre(s, step, c.streamId, headers)
            && Built(headers, BodyOf(s, c.streamId) + Appended(s, step, maxRequestBytes, c.streamId))
                == Some(c.request))
  }

  ghost predicate HeadersAre(s: Session, step: Step, id: U32, headers: seq<HeaderField>) {
    if id in s.streams then s.streams[id].headers == headers else DecodedBy(s, step) == Some(headers)
  }

  lemma QuietBuilds(s: Session, step: Step, maxRequestBytes: nat, o: Outcome)
    requires forall id :: id in o.session.streams ==> id in s.streams
    requires o.result.completed.None?
    ensures Builds(s, step, maxRequestBytes, o)
  {
  }

  lemma DecodeHeadersBuilds(s: Session, step: Step, maxRequestBytes: nat, before: Session, endStream: bool,
      block: Bytes)
    requires Invariant(s) && step.Receive? && IsStreamId(step.frame.streamId)
    requires before == s || before == s.(pending := None)
    requires CompletedBlock(s, step) == Some(block) && step.frame.kind != DATA
    ensures Builds(s, step, maxRequestBytes, DecodeHeaders(before, step.frame.streamId, endStream, block))
  {
    hide HpackBlocks.DecodeBlock, Built, CompletedBlock, RstStreamFrame;
    var id := step.frame.streamId;
    var o := DecodeHeaders(before, id, endStream, block);
    if id in s.streams {
      assert StreamInvariant(s, id);
    }
    if o.result.completed.Some? {
      var headers := HpackBlocks.DecodeBlock(block, s.table, false).headers.value;
      assert HeadersAre(s, step, id, headers);
      assert BodyOf(s, id) + Appended(s, step, maxRequestBytes, id) == [];
    }
  }

  lemma HeadersBuild(s: Session, step: Step, maxRequestBytes: nat)
    requires Invariant(s) && step.Valid() && step.Receive? && step.frame.kind == HEADERS
    ensures Builds(s, step, maxRequestBytes, HandleHeaders(s, step.frame, maxRequestBytes))
  {
    hide DecodeHeaders, Built, HeaderBlockPayload, RstStreamFrame, FailureText, FailureCode;
    var f := step.frame;
    if s.pending.None? && EndsHeaders(f) && HeaderBlockPayload(f).Some? {
      DecodeHeadersBuilds(s, step, maxRequestBytes, s, EndsStream(f), HeaderBlockPayload(f).value);
    }
  }

  lemma ContinuationBuilds(s: Session, step: Step, maxRequestBytes: nat)
    requires Invariant(s) && step.Valid() && step.Receive? && step.frame.kind == CONTINUATION
    ensures Builds(s, step, maxRequestBytes, HandleContinuation(s, step.frame, maxRequestBytes))
  {
    hide DecodeHeaders, Built, RstStreamFrame, FailureText, FailureCode;
    var f := step.frame;
    if s.pending.Some? && s.pending.value.streamId == f.streamId && EndsHeaders(f) {
      var p := s.pending.value;
      DecodeHeadersBuilds(s, step, maxRequestBytes, s.(pending := None), p.endStream, p.block + f.payload);
    }
  }

  lemma DataBuilds(s: Session, step: Step, maxRequestBytes: nat)
    requires Invariant(s) && step.Valid() && step.Receive? && step.frame.kind == DATA && s.pending.None?
    ensures Builds(s, step, maxRequestBytes, HandleData(s, step.frame, maxRequestBytes))
  {
    hide Built, RstStreamFrame, FailureText, FailureCode, WindowUpdates, DataPayload;
    var f := step.frame;
    var o := HandleData(s, f, maxRequestBytes);
    if o.result.completed.Some? {
      assert HeadersAre(s, step, f.streamId, s.streams[f.streamId].headers);
    }
  }

  lemma StepBuilds(s: Session, step: Step, maxRequestBytes: nat)
    requires Invariant(s) && step.Valid()
    ensures Builds(s, step, maxRequestBytes, StepOf(s, step, maxRequestBytes))
  {
    hide HandleHeaders, HandleContinuation, HandleData, Builds, FailureText, FailureCode, Appended, ApplySettings,
         ParseSettings;
    var o := StepOf(s, step, maxRequestBytes);
    match step
    case Drop(_) => QuietBuilds(s, step, maxRequestBytes, o);
    case Receive(f) =>
      if s.pending.Some? && f.kind != CONTINUATION {
        QuietBuilds(s, step, maxRequestBytes, o);
      } else if f.kind == HEADERS {
        HeadersBuild(s, step, maxRequestBytes);
      } else if f.kind == DATA {
        DataBuilds(s, step, maxRequestBytes);
      } else if f.kind == CONTINUATION {
        ContinuationBuilds(s, step, maxRequestBytes);
      } else {
        QuietBuilds(s, step, maxRequestBytes, o);
      }
  }

  // ----- whole runs

  /** The header list that opened stream `id` in the first `n` steps. */
  ghost function OpenedWith(s: Session, steps: seq<Step>, n: nat, maxRequestBytes: nat,
      id: U32): Option<seq<HeaderField>>
    requires n <= |steps| && ValidSteps(steps)
  {
    if n == 0 then None
    else if Opens(After(s, steps, n - 1, maxRequestBytes), OutcomeAt(s, steps, n - 1, maxRequestBytes), id) then
      DecodedBy(After(s, steps, n - 1, maxRequestBytes), steps[n - 1])
    else OpenedWith(s, steps, n - 1, maxRequestBytes, id)
  }

  lemma {:induction false} StoredHeaders(s: Session, steps: seq<Step>, n: nat, maxRequestBytes: nat, id: U32)
    requires GoodRun(s, steps, maxRequestBytes) && n <= |steps| && id !in s.streams
    requires id in After(s, steps, n, maxRequestBytes).streams
    ensures OpenedWith(s, steps, n, maxRequestBytes, id)
        == Some(After(s, steps, n, maxRequestBytes).streams[id].headers)
    decreases n
  {
    hide StepOf, Invariant, SafeDrops, DecodedBy, Appended;
    if n > 0 {
      var before, o := After(s, steps, n - 1, maxRequestBytes), OutcomeAt(s, steps, n - 1, maxRequestBytes);
      assert After(s, steps, n, maxRequestBytes) == o.session;
      RunKeepsInvariant(s, steps, n - 1, maxRequestBytes);
      assert steps[n - 1].Valid();
      StepBuilds(before, steps[n - 1], maxRequestBytes);
      if id in before.streams {
        StoredHeaders(s, steps, n - 1, maxRequestBytes, id);
      }
    }
  }

  /** Over any run a request that a stream ends with is the one that its fields and its DATA
      octets make: the header list that was decoded when the stream was opened, and exactly the
      octets that were accepted for it, in order. */
  lemma RequestIsBuilt(s: Session, steps: seq<Step>, j: nat, maxRequestBytes: nat)
    requires GoodRun(s, steps, maxRequestBytes) && j < |steps|
    requires OutcomeAt(s, steps, j, maxRequestBytes).result.completed.Some?
    requires var id := OutcomeAt(s, steps, j, maxRequestBytes).result.completed.value.streamId;
      id !in s.streams && id > s.lastClientStreamId
    ensures var c := OutcomeAt(s, steps, j, maxRequestBytes).result.completed.value;
      && OpenedWith(s, steps, j + 1, maxRequestBytes, c.streamId).Some?
      && Built(OpenedWith(s, steps, j + 1, maxRequestBytes, c.streamId).value,
               Gathered(s, steps, j + 1, maxRequestBytes, c.streamId)) == Some(c.request)
  {
    hide StepOf, Invariant, SafeDrops, DecodedBy, Appended, Built;
    var before, o := After(s, steps, j, maxRequestBytes), OutcomeAt(s, steps, j, maxRequestBytes);
    var c := o.result.completed.value;
    RunKeepsInvariant(s, steps, j, maxRequestBytes);
    assert steps[j].Valid();
    StepBuilds(before, steps[j], maxRequestBytes);
    assert !Gone(before, c.streamId);
    StoredBodyIsGathered(s, steps, j, maxRequestBytes, c.streamId);
    if c.streamId in before.streams {
      StoredHeaders(s, steps, j, maxRequestBytes, c.streamId);
    }
  }
}
