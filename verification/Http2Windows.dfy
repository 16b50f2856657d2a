/** Conservation of flow control (section 5.2 of RFC 9113): what the session credits back in
    WINDOW_UPDATE frames is what it has added to request bodies, and those bodies are exactly
    the DATA octets that were accepted. */
module Http2Windows {
  import opened Wrappers
  import opened Octets
  import opened Http2Frame
  import HpackBlocks
  import opened Http2Translation
  import opened Http2Session
  import opened Http2Runs
  import opened Http2Histories

  // ----- credits, as the peer reads them from the output

  function Increments(frames: seq<Frame>, streamId: U32): nat
    requires forall i :: 0 <= i < |frames| ==> ValidFrame(frames[i], DEFAULT_MAX_FRAME_SIZE)
  {
    if frames == [] then 0
    else
      assert ValidFrame(frames[0], DEFAULT_MAX_FRAME_SIZE);
      (if frames[0].kind == WINDOW_UPDATE && frames[0].streamId == streamId then ReadU31(frames[0].payload) else 0)
         + Increments(frames[1..], streamId)
  }

  /** The sum of the WINDOW_UPDATE increments for a stream, or for the connection as stream 0,
      in the frames of an output. */
  function Credits(output: Bytes, streamId: U32): nat {
    Increments(FramesIn(output), streamId)
  }

  lemma CreditsOfFrame(f: Frame, rest: Bytes, streamId: U32)
    requires ValidFrame(f, DEFAULT_MAX_FRAME_SIZE)
    ensures Credits(FrameWire(f) + rest, streamId) ==
            (if f.kind == WINDOW_UPDATE && f.streamId == streamId then ReadU31(f.payload) else 0)
                + Credits(rest, streamId)
  {
    FramesInAfter(f, rest);
    hide FramesIn, FrameWire;
    assert ([f] + FramesIn(rest))[1..] == FramesIn(rest);
  }

  lemma NoCredits(f: Frame, streamId: U32)
    requires ValidFrame(f, DEFAULT_MAX_FRAME_SIZE) && f.kind != WINDOW_UPDATE
    ensures Credits(FrameString(f), streamId) == 0
  {
    CreditsOfFrame(f, [], streamId);
    assert FrameWire(f) + [] == FrameWire(f);
    assert FramesIn([]) == [];
  }

  lemma UpdateFrame(id: U32, n: nat)
    requires id <= MAX_STREAM_ID && 0 < n <= DEFAULT_MAX_FRAME_SIZE
    ensures var f := WindowUpdateFrame(id, n);
      ValidFrame(f, DEFAULT_MAX_FRAME_SIZE) && f.kind == WINDOW_UPDATE && f.streamId == id && |f.payload| == 4
          && ReadU31(f.payload) == n
  {
    U32RoundTrip(n, []);
    assert U32Bytes(n) + [] == U32Bytes(n);
    assert n % 0x8000_0000 == n;
    hide U32Bytes, ReadU31;
  }

  lemma CreditsOfUpdates(id: U32, n: nat, streamId: U32)
    requires IsStreamId(id) && n <= DEFAULT_MAX_FRAME_SIZE
    ensures Credits(WindowUpdates(id, n), streamId) == if streamId == 0 || streamId == id then n else 0
  {
    assert FramesIn([]) == [];
    if n > 0 {
      UpdateFrame(0, n);
      UpdateFrame(id, n);
      hide FrameWire, FramesIn, U32Bytes, ReadU31, WindowUpdateFrame, Increments, Violation;
      var first, second := WindowUpdateFrame(0, n), WindowUpdateFrame(id, n);
      CreditsOfFrame(second, [], streamId);
      assert FrameWire(second) + [] == FrameWire(second);
      assert Credits([], streamId) == 0 by { EmptyOutput(); }
      CreditsOfFrame(first, FrameWire(second), streamId);
    } else {
      EmptyOutput();
    }
  }

  // ----- what a step adds to a body

  /** The octets that a step appends to the body of stream `id`. */
  function Appended(s: Session, step: Step, maxRequestBytes: nat, id: U32): Bytes {
    if step.Receive? && step.frame.kind == DATA && s.pending.None? && step.frame.streamId == id
       && AcceptedData(s, step.frame, maxRequestBytes).Some?
    then AcceptedData(s, step.frame, maxRequestBytes).value
    else []
  }

  /** The stream that a step may append to. */
  function Target(step: Step): U32 {
    if step.Receive? then step.frame.streamId else step.streamId
  }

  function BodyOf(s: Session, id: U32): Bytes {
    if id in s.streams then s.streams[id].body else []
  }

  /** A step credits what it appends, to the connection and to that stream, and nothing else;
      bodies grow by what is appended, and a request carries the body of its stream. */
  ghost predicate Conserves(s: Session, step: Step, maxRequestBytes: nat, o: Outcome) {
    && (forall id: U32 :: Credits(o.result.output, id) ==
          if id == 0 then |Appended(s, step, maxRequestBytes, Target(step))|
              else |Appended(s, step, maxRequestBytes, id)|)
    && (forall id :: id in o.session.streams ==>
          o.session.streams[id].body == BodyOf(s, id) + Appended(s, step, maxRequestBytes, id))
    && (o.result.completed.Some? ==>
          var c := o.result.completed.value;
          c.request.body == BodyOf(s, c.streamId) + Appended(s, step, maxRequestBytes, c.streamId))
  }

  lemma SilentConserves(s: Session, step: Step, maxRequestBytes: nat, o: Outcome)
    requires forall id: U32 :: Credits(o.result.output, id) == 0
    requires forall id: U32 :: Appended(s, step, maxRequestBytes, id) == []
    requires forall id :: id in o.session.streams ==> id in s.streams && o.session.streams[id] == s.streams[id]
    requires o.result.completed.None?
    ensures Conserves(s, step, maxRequestBytes, o)
  {
    hide Credits, Appended;
    forall id | id in o.session.streams
      ensures o.session.streams[id].body == BodyOf(s, id) + Appended(s, step, maxRequestBytes, id)
    {
      assert BodyOf(s, id) + [] == BodyOf(s, id);
    }
  }

  lemma FailConserves(s: Session, step: Step, maxRequestBytes: nat, e: Failure)
    requires forall id: U32 :: Appended(s, step, maxRequestBytes, id) == []
    ensures Conserves(s, step, maxRequestBytes, FailConnection(s, e))
  {
    forall id: U32
      ensures Credits(FailConnection(s, e).result.output, id) == 0
    {
      NoCredits(GoawayFrame(FailureCode(e), Ascii(FailureText(e))), id);
    }
    hide Credits, FailureText, FailureCode, Appended;
    SilentConserves(s, step, maxRequestBytes, FailConnection(s, e));
  }

  lemma ResetCredits(s: Session, id: U32, code: U32, streamId: U32)
    requires IsStreamId(id)
    ensures Credits(ResetStreamResult(s, id, code).result.output, streamId) == 0
  {
    NoCredits(RstStreamFrame(id, code), streamId);
  }

  lemma ResetConserves(s: Session, step: Step, maxRequestBytes: nat, s1: Session, id: U32, code: U32)
    requires IsStreamId(id) && s1.streams == s.streams
    requires forall x: U32 :: Appended(s, step, maxRequestBytes, x) == []
    ensures Conserves(s, step, maxRequestBytes, ResetStreamResult(s1, id, code))
  {
    hide Credits, Appended;
    forall x: U32
      ensures Credits(ResetStreamResult(s1, id, code).result.output, x) == 0
    {
      ResetCredits(s1, id, code, x);
    }
    SilentConserves(s, step, maxRequestBytes, ResetStreamResult(s1, id, code));
  }

  lemma BuiltKeepsBody(headers: seq<HpackBlocks.HpackTable.HeaderField>, body: Bytes)
    ensures Built(headers, body).Some? ==> Built(headers, body).value.body == body
  {
    hide PlanFor;
  }

  lemma DecodeHeadersConserves(s: Session, step: Step, maxRequestBytes: nat, s1: Session, id: U32, endStream: bool,
      block: Bytes)
    requires IsStreamId(id) && s1.streams == s.streams
    requires forall x :: x in s.streams ==> s.streams[x].headersReceived
    requires forall x: U32 :: Appended(s, step, maxRequestBytes, x) == []
    ensures Conserves(s, step, maxRequestBytes, DecodeHeaders(s1, id, endStream, block))
  {
    hide Credits, Appended, HpackBlocks.DecodeBlock, Built, ResetStreamResult, Conserves;
    var decoded := HpackBlocks.DecodeBlock(block, s1.table, false);
    var s2 := s1.(table := decoded.table);
    match decoded.headers
    case Err(e) =>
      ResetConserves(s, step, maxRequestBytes, s2, id, ERROR_COMPRESSION);
      SameOutput(s, step, maxRequestBytes, ResetStreamResult(s2, id, ERROR_COMPRESSION),
          DecodeHeaders(s1, id, endStream, block));
    case Ok(headers) =>
      if id in s.streams {
        ResetConserves(s, step, maxRequestBytes, s2, id, ERROR_PROTOCOL);
      } else {
        BuiltKeepsBody(headers, []);
        NewConserves(s, step, maxRequestBytes, DecodeHeaders(s1, id, endStream, block), id);
      }
  }

  lemma SameOutput(s: Session, step: Step, maxRequestBytes: nat, o1: Outcome, o2: Outcome)
    requires Conserves(s, step, maxRequestBytes, o1) && o2.session == o1.session
    requires o2.result.output == o1.result.output && o2.result.completed == o1.result.completed
    ensures Conserves(s, step, maxRequestBytes, o2)
  {
    hide Credits, Appended, BodyOf;
  }

  lemma NewConserves(s: Session, step: Step, maxRequestBytes: nat, o: Outcome, id: U32)
    requires id !in s.streams && o.result.output == []
    requires forall x: U32 :: Appended(s, step, maxRequestBytes, x) == []
    requires forall x :: x in o.session.streams && x != id ==> x in s.streams && o.session.streams[x] == s.streams[x]
    requires id in o.session.streams ==> o.session.streams[id].body == []
    requires o.result.completed.Some? ==>
        o.result.completed.value.streamId == id && o.result.completed.value.request.body == []
    ensures Conserves(s, step, maxRequestBytes, o)
  {
    assert FramesIn([]) == [];
    assert forall x: U32 :: Credits([], x) == 0;
    hide Credits, Appended;
    forall x | x in o.session.streams
      ensures o.session.streams[x].body == BodyOf(s, x) + Appended(s, step, maxRequestBytes, x)
    {
      assert BodyOf(s, x) + [] == BodyOf(s, x);
    }
  }

  // ----- each kind of frame conserves

  lemma HeadersConserve(s: Session, step: Step, maxRequestBytes: nat)
    requires Invariant(s) && step.Receive? && step.frame.kind == HEADERS && s.pending.None?
        && IsStreamId(step.frame.streamId)
    ensures Conserves(s, step, maxRequestBytes, HandleHeaders(s, step.frame, maxRequestBytes))
  {
    var f := step.frame;
    EmptyOutput();
    assert forall x :: x in s.streams ==> s.streams[x].headersReceived by { StoredHaveHeaders(s); }
    hide Credits, Conserves, DecodeHeaders, FailConnection, ResetStreamResult, HeaderBlockPayload, Invariant,
         AcceptedData;
    if f.streamId % 2 == 0 {
      FailConserves(s, step, maxRequestBytes, EvenStreamId);
    } else if f.streamId !in s.streams && f.streamId <= s.lastClientStreamId {
      ResetConserves(s, step, maxRequestBytes, s, f.streamId, ERROR_STREAM_CLOSED);
    } else {
      match HeaderBlockPayload(f)
      case None => ResetConserves(s, step, maxRequestBytes, s, f.streamId, ERROR_PROTOCOL);
      case Some(block) =>
        if |block| > maxRequestBytes {
          ResetConserves(s, step, maxRequestBytes, s, f.streamId, ERROR_ENHANCE_YOUR_CALM);
        } else if !EndsHeaders(f) {
          SilentConserves(s, step, maxRequestBytes, HandleHeaders(s, f, maxRequestBytes));
        } else {
          DecodeHeadersConserves(s, step, maxRequestBytes, s, f.streamId, EndsStream(f), block);
        }
    }
  }

  lemma EmptyOutput()
    ensures forall x: U32 :: Credits([], x) == 0
  {
    assert FramesIn([]) == [];
  }

  lemma StoredHaveHeaders(s: Session)
    requires Invariant(s)
    ensures forall x :: x in s.streams ==> s.streams[x].headersReceived && IsStreamId(x)
  {
    assert forall x :: x in s.streams ==> StreamInvariant(s, x);
  }

  lemma ContinuationConserves(s: Session, step: Step, maxRequestBytes: nat)
    requires Invariant(s) && step.Receive? && step.frame.kind == CONTINUATION && IsStreamId(step.frame.streamId)
    ensures Conserves(s, step, maxRequestBytes, HandleContinuation(s, step.frame, maxRequestBytes))
  {
    var f := step.frame;
    EmptyOutput();
    StoredHaveHeaders(s);
    hide Credits, Conserves, DecodeHeaders, FailConnection, ResetStreamResult, Invariant, AcceptedData;
    if s.pending.None? || s.pending.value.streamId != f.streamId {
      FailConserves(s, step, maxRequestBytes, UnmatchedContinuation);
    } else {
      var p, s1 := s.pending.value, s.(pending := None);
      if |p.block| + |f.payload| > maxRequestBytes {
        ResetConserves(s, step, maxRequestBytes, s1, f.streamId, ERROR_ENHANCE_YOUR_CALM);
      } else if !EndsHeaders(f) {
        SilentConserves(s, step, maxRequestBytes, HandleContinuation(s, f, maxRequestBytes));
      } else {
        DecodeHeadersConserves(s, step, maxRequestBytes, s1, p.streamId, p.endStream, p.block + f.payload);
      }
    }
  }

  lemma DataConserves(s: Session, step: Step, maxRequestBytes: nat)
    requires Invariant(s) && step.Valid() && step.Receive? && step.frame.kind == DATA && s.pending.None?
    ensures Conserves(s, step, maxRequestBytes, HandleData(s, step.frame, maxRequestBytes))
  {
    var f := step.frame;
    if f.streamId in s.streams {
      DataNeverBlocked(s, f);
    }
    hide Credits, Conserves, CompleteStream, FailConnection, ResetStreamResult, Invariant, Unpadded, WindowUpdates;
    if AcceptedData(s, f, maxRequestBytes).None? {
      var code := if f.streamId !in s.streams then ERROR_STREAM_CLOSED
                  else if DataPayload(f).None? then ERROR_PROTOCOL else ERROR_ENHANCE_YOUR_CALM;
      ResetConserves(s, step, maxRequestBytes, s, f.streamId, code);
    } else {
      var payload := AcceptedData(s, f, maxRequestBytes).value;
      var grown := s.streams[f.streamId].(body := s.streams[f.streamId].body + payload);
      assert forall id: U32 :: Appended(s, step, maxRequestBytes, id) == if id == f.streamId then payload else [];
      forall id: U32
        ensures Credits(WindowUpdates(f.streamId, |payload|), id)
            == if id == 0 || id == f.streamId then |payload| else 0
      {
        CreditsOfUpdates(f.streamId, |payload|, id);
      }
      hide AcceptedData, Appended;
      if EndsStream(f) {
        var last := grown.(lifecycle := HalfClosedRemote);
        var done := CompleteStream(s.(streams := s.streams[f.streamId := last]), f.streamId);
        AppendEnds(s, step, maxRequestBytes, f.streamId, payload, last, WindowUpdates(f.streamId, |payload|));
      } else {
        AppendGrows(s, step, maxRequestBytes, f.streamId, payload, WindowUpdates(f.streamId, |payload|));
      }
    }
  }

  lemma AppendGrows(s: Session, step: Step, maxRequestBytes: nat, id: U32, payload: Bytes, updates: Bytes)
    requires id in s.streams && id != 0 && Target(step) == id
    requires forall x: U32 :: Appended(s, step, maxRequestBytes, x) == if x == id then payload else []
    requires forall x: U32 :: Credits(updates, x) == if x == 0 || x == id then |payload| else 0
    ensures var grown := s.streams[id].(body := s.streams[id].body + payload);
      Conserves(s, step, maxRequestBytes, Outcome(s.(streams := s.streams[id := grown]), NOTHING.(output := updates)))
  {
    hide Credits, Appended;
    var s' := s.(streams := s.streams[id := s.streams[id].(body := s.streams[id].body + payload)]);
    forall x | x in s'.streams
      ensures s'.streams[x].body == BodyOf(s, x) + Appended(s, step, maxRequestBytes, x)
    {
      assert BodyOf(s, x) + [] == BodyOf(s, x);
    }
  }

  lemma AppendEnds(s: Session, step: Step, maxRequestBytes: nat, id: U32, payload: Bytes, last: Stream, updates: Bytes)
    requires id in s.streams && IsStreamId(id) && Target(step) == id && last.body == s.streams[id].body + payload
    requires forall x: U32 :: Appended(s, step, maxRequestBytes, x) == if x == id then payload else []
    requires forall x: U32 :: Credits(updates, x) == if x == 0 || x == id then |payload| else 0
    ensures var done := CompleteStream(s.(streams := s.streams[id := last]), id);
      Conserves(s, step, maxRequestBytes, done.(result := done.result.(output := updates + done.result.output)))
  {
    BuiltKeepsBody(last.headers, last.body);
    hide Credits, Appended, Built;
    var done := CompleteStream(s.(streams := s.streams[id := last]), id);
    assert updates + done.result.output == updates;
    forall x | x in done.session.streams
      ensures done.session.streams[x].body == BodyOf(s, x) + Appended(s, step, maxRequestBytes, x)
    {
      assert BodyOf(s, x) + [] == BodyOf(s, x);
    }
  }

  lemma OtherConserves(s: Session, step: Step, maxRequestBytes: nat)
    requires step.Valid() && step.Receive? && s.pending.None?
    requires step.frame.kind !in {HEADERS, DATA, CONTINUATION, PUSH_PROMISE}
    ensures Conserves(s, step, maxRequestBytes, HandleFrame(s, step.frame, maxRequestBytes))
  {
    var f := step.frame;
    EmptyOutput();
    forall x: U32
      ensures Credits(FrameString(SettingsFrame(true)), x) == 0
    {
      NoCredits(SettingsFrame(true), x);
    }
    if f.kind == PING {
      forall x: U32
        ensures Credits(FrameString(PingFrame(f.payload, true)), x) == 0
      {
        NoCredits(PingFrame(f.payload, true), x);
      }
    }
    hide Credits, FrameString, Conserves;
    SilentConserves(s, step, maxRequestBytes, HandleFrame(s, f, maxRequestBytes));
  }

  /** Every step conserves. */
  lemma StepConserves(s: Session, step: Step, maxRequestBytes: nat)
    requires Invariant(s) && step.Valid()
    ensures Conserves(s, step, maxRequestBytes, StepOf(s, step, maxRequestBytes))
  {
    EmptyOutput();
    hide Credits, Conserves, Invariant, HandleHeaders, HandleData, HandleContinuation, FailConnection, AcceptedData;
    match step
    case Drop(_) => SilentConserves(s, step, maxRequestBytes, StepOf(s, step, maxRequestBytes));
    case Receive(f) =>
      if s.pending.Some? && f.kind != CONTINUATION {
        FailConserves(s, step, maxRequestBytes, ExpectedContinuation);
      } else if f.kind == HEADERS {
        HeadersConserve(s, step, maxRequestBytes);
      } else if f.kind == DATA {
        DataConserves(s, step, maxRequestBytes);
      } else if f.kind == CONTINUATION {
        ContinuationConserves(s, step, maxRequestBytes);
      } else if f.kind == PUSH_PROMISE {
        FailConserves(s, step, maxRequestBytes, PushPromise);
      } else {
        OtherConserves(s, step, maxRequestBytes);
      }
  }

  // ----- whole runs

  /** All octets appended to stream `id` in the first `n` steps. */
  ghost function Gathered(s: Session, steps: seq<Step>, n: nat, maxRequestBytes: nat, id: U32): Bytes
    requires n <= |steps| && ValidSteps(steps)
  {
    if n == 0 then []
    else Gathered(s, steps, n - 1, maxRequestBytes, id)
         + Appended(After(s, steps, n - 1, maxRequestBytes), steps[n - 1], maxRequestBytes, id)
  }

  /** The number of octets appended to any stream in the first `n` steps. */
  ghost function GatheredInAll(s: Session, steps: seq<Step>, n: nat, maxRequestBytes: nat): nat
    requires n <= |steps| && ValidSteps(steps)
  {
    if n == 0 then 0
    else GatheredInAll(s, steps, n - 1, maxRequestBytes)
         + |Appended(After(s, steps, n - 1, maxRequestBytes), steps[n - 1], maxRequestBytes, Target(steps[n - 1]))|
  }

  /** All credits for `id` in the outputs of the first `n` steps. */
  ghost function Credited(s: Session, steps: seq<Step>, n: nat, maxRequestBytes: nat, id: U32): nat
    requires n <= |steps| && ValidSteps(steps)
  {
    if n == 0 then 0
    else
      Credited(s, steps, n - 1, maxRequestBytes, id)
      + Credits(OutcomeAt(s, steps, n - 1, maxRequestBytes).result.output, id)
  }

  /** Over any run the window increments, for the connection and for each stream, sum up to the
      octets appended to bodies. */
  lemma {:induction false} CreditsConserved(s: Session, steps: seq<Step>, n: nat, maxRequestBytes: nat, id: U32)
    requires GoodRun(s, steps, maxRequestBytes) && n <= |steps|
    ensures Credited(s, steps, n, maxRequestBytes, id) ==
            if id == 0 then GatheredInAll(s, steps, n, maxRequestBytes)
                else |Gathered(s, steps, n, maxRequestBytes, id)|
    decreases n
  {
    hide Credits, Appended, StepOf, Invariant, SafeDrops;
    if n > 0 {
      CreditsConserved(s, steps, n - 1, maxRequestBytes, id);
      RunKeepsInvariant(s, steps, n - 1, maxRequestBytes);
      assert steps[n - 1].Valid();
      StepConserves(After(s, steps, n - 1, maxRequestBytes), steps[n - 1], maxRequestBytes);
    }
  }

  lemma {:induction false} StoredBodyIsGathered(s: Session, steps: seq<Step>, n: nat, maxRequestBytes: nat, id: U32)
    requires GoodRun(s, steps, maxRequestBytes) && n <= |steps|
    requires id !in s.streams && id > s.lastClientStreamId
    ensures !Gone(After(s, steps, n, maxRequestBytes), id) ==>
              BodyOf(After(s, steps, n, maxRequestBytes), id) == Gathered(s, steps, n, maxRequestBytes, id)
    decreases n
  {
    hide Credits, StepOf, Invariant, SafeDrops, AcceptedData;
    if n > 0 && !Gone(After(s, steps, n, maxRequestBytes), id) {
      var before := After(s, steps, n - 1, maxRequestBytes);
      if Gone(before, id) {
        GoneForGood(s, steps, n - 1, n, id, maxRequestBytes);
      } else {
        StoredBodyIsGathered(s, steps, n - 1, maxRequestBytes, id);
        RunKeepsInvariant(s, steps, n - 1, maxRequestBytes);
        assert steps[n - 1].Valid();
        StepConserves(before, steps[n - 1], maxRequestBytes);
        NothingForAbsent(before, steps[n - 1], maxRequestBytes, id);
        assert After(s, steps, n, maxRequestBytes) == OutcomeAt(s, steps, n - 1, maxRequestBytes).session;
        LargestIdGrows(s, steps, n - 1, n, maxRequestBytes);
        BodyAfter(before, steps[n - 1], maxRequestBytes, OutcomeAt(s, steps, n - 1, maxRequestBytes), id);
      }
    }
  }

  lemma NothingForAbsent(s: Session, step: Step, maxRequestBytes: nat, id: U32)
    ensures id !in s.streams ==> Appended(s, step, maxRequestBytes, id) == []
  {
  }

  lemma BodyAfter(s: Session, step: Step, maxRequestBytes: nat, o: Outcome, id: U32)
    requires Conserves(s, step, maxRequestBytes, o) && GoodStep(s, o) && !Gone(o.session, id)
    requires id !in s.streams ==> Appended(s, step, maxRequestBytes, id) == []
    requires !Gone(s, id) && Invariant(s)
    ensures BodyOf(o.session, id) == BodyOf(s, id) + Appended(s, step, maxRequestBytes, id)
  {
    hide Credits, Appended;
    if id in s.streams {
      assert StreamInvariant(s, id);
    }
  }

  /** A request that a stream ends with carries exactly the octets that were accepted for the
      stream since the beginning of the run, in order. */
  lemma RequestBodyIsGathered(s: Session, steps: seq<Step>, j: nat, maxRequestBytes: nat)
    requires GoodRun(s, steps, maxRequestBytes) && j < |steps|
    requires OutcomeAt(s, steps, j, maxRequestBytes).result.completed.Some?
    requires var id := OutcomeAt(s, steps, j, maxRequestBytes).result.completed.value.streamId;
      id !in s.streams && id > s.lastClientStreamId
    ensures var c := OutcomeAt(s, steps, j, maxRequestBytes).result.completed.value;
      c.request.body == Gathered(s, steps, j + 1, maxRequestBytes, c.streamId)
  {
    hide Credits, Appended, StepOf, Invariant, SafeDrops;
    var before, o := After(s, steps, j, maxRequestBytes), OutcomeAt(s, steps, j, maxRequestBytes);
    var id := o.result.completed.value.streamId;
    RunKeepsInvariant(s, steps, j, maxRequestBytes);
    assert steps[j].Valid();
    StepConserves(before, steps[j], maxRequestBytes);
    assert !Gone(before, id);
    StoredBodyIsGathered(s, steps, j, maxRequestBytes, id);
  }
}
