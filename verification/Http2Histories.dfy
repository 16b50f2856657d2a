/** Whole runs of a session: any sequence of frames, with calls of `reset_stream` in between. */
module Http2Histories {
  import opened Wrappers
  import opened Octets
  import opened Http2Frame
  import opened HpackTable
  import HpackBlocks
  import opened Http2Translation
  import opened Http2Session
  import opened Http2Runs

  datatype Step = Receive(frame: Frame) | Drop(streamId: U32) {
    predicate Valid() {
      Receive? ==> ValidFrame(frame, DEFAULT_MAX_FRAME_SIZE)
    }
  }

  ghost function StepOf(s: Session, step: Step, maxRequestBytes: nat): Outcome
    requires step.Valid()
  {
    match step
    case Receive(frame) => HandleFrame(s, frame, maxRequestBytes)
    case Drop(streamId) => Outcome(Forget(s, streamId), NOTHING)
  }

  predicate ValidSteps(steps: seq<Step>) {
    forall i :: 0 <= i < |steps| ==> steps[i].Valid()
  }

  /** The session after the first `n` steps. */
  ghost function After(s: Session, steps: seq<Step>, n: nat, maxRequestBytes: nat): Session
    requires n <= |steps| && ValidSteps(steps)
  {
    if n == 0 then s else StepOf(After(s, steps, n - 1, maxRequestBytes), steps[n - 1], maxRequestBytes).session
  }

  /** What step `i` of the run does. */
  ghost function OutcomeAt(s: Session, steps: seq<Step>, i: nat, maxRequestBytes: nat): Outcome
    requires i < |steps| && ValidSteps(steps)
  {
    StepOf(After(s, steps, i, maxRequestBytes), steps[i], maxRequestBytes)
  }

  /** Dropping a stored stream while another header block of that same stream is pending would
      let that block open the stream again. */
  predicate SafeDrop(s: Session, streamId: U32) {
    !(s.pending.Some? && s.pending.value.streamId == streamId && streamId in s.streams)
  }

  ghost predicate SafeDrops(s: Session, steps: seq<Step>, maxRequestBytes: nat)
    requires ValidSteps(steps)
  {
    forall i :: 0 <= i < |steps| && steps[i].Drop? ==> SafeDrop(After(s, steps, i, maxRequestBytes), steps[i].streamId)
  }

  /** A run from a good state whose drops are safe. */
  ghost predicate GoodRun(s: Session, steps: seq<Step>, maxRequestBytes: nat) {
    ValidSteps(steps) && Invariant(s) && SafeDrops(s, steps, maxRequestBytes)
  }

  // ----- the invariant holds throughout

  lemma DropKeeps(s: Session, streamId: U32)
    requires Invariant(s) && SafeDrop(s, streamId)
    ensures GoodStep(s, Outcome(Forget(s, streamId), NOTHING))
  {
    var s' := Forget(s, streamId);
    forall id | id in s'.streams
      ensures StreamInvariant(s', id)
    {
      assert StreamInvariant(s, id);
    }
  }

  lemma {:induction false} RunKeepsInvariant(s: Session, steps: seq<Step>, n: nat, maxRequestBytes: nat)
    requires GoodRun(s, steps, maxRequestBytes) && n <= |steps|
    ensures Invariant(After(s, steps, n, maxRequestBytes))
    ensures n < |steps| ==> GoodStep(After(s, steps, n, maxRequestBytes), OutcomeAt(s, steps, n, maxRequestBytes))
    decreases n
  {
    hide Invariant, HandleFrame, SafeDrop;
    if n > 0 {
      RunKeepsInvariant(s, steps, n - 1, maxRequestBytes);
    }
    if n < |steps| {
      var s1 := After(s, steps, n, maxRequestBytes);
      assert steps[n].Valid();
      match steps[n]
      case Receive(frame) => FrameKeeps(s1, frame, maxRequestBytes);
      case Drop(streamId) => DropKeeps(s1, streamId);
    }
  }

  lemma {:induction false} LargestIdGrows(s: Session, steps: seq<Step>, i: nat, j: nat, maxRequestBytes: nat)
    requires GoodRun(s, steps, maxRequestBytes) && i <= j <= |steps|
    ensures After(s, steps, i, maxRequestBytes).lastClientStreamId
        <= After(s, steps, j, maxRequestBytes).lastClientStreamId
    decreases j
  {
    hide SafeDrops, Invariant, StepOf;
    if i < j {
      LargestIdGrows(s, steps, i, j - 1, maxRequestBytes);
      RunKeepsInvariant(s, steps, j - 1, maxRequestBytes);
    }
  }

  /** Over any run, the ids of the streams that are opened are odd and strictly increasing. */
  lemma OpenedIdsIncrease(s: Session, steps: seq<Step>, i: nat, j: nat, a: U32, b: U32, maxRequestBytes: nat)
    requires GoodRun(s, steps, maxRequestBytes) && i < j < |steps|
    requires Opens(After(s, steps, i, maxRequestBytes), OutcomeAt(s, steps, i, maxRequestBytes), a)
    requires Opens(After(s, steps, j, maxRequestBytes), OutcomeAt(s, steps, j, maxRequestBytes), b)
    ensures a % 2 == 1 && b % 2 == 1 && a < b
  {
    hide SafeDrops, Invariant, StepOf, Opens;
    RunKeepsInvariant(s, steps, i, maxRequestBytes);
    RunKeepsInvariant(s, steps, j, maxRequestBytes);
    LargestIdGrows(s, steps, i + 1, j, maxRequestBytes);
    assert After(s, steps, i + 1, maxRequestBytes) == OutcomeAt(s, steps, i, maxRequestBytes).session;
  }

  /** One step opens one stream at most. */
  lemma OneStepOpensOne(s: Session, steps: seq<Step>, i: nat, a: U32, b: U32, maxRequestBytes: nat)
    requires GoodRun(s, steps, maxRequestBytes) && i < |steps|
    requires Opens(After(s, steps, i, maxRequestBytes), OutcomeAt(s, steps, i, maxRequestBytes), a)
    requires Opens(After(s, steps, i, maxRequestBytes), OutcomeAt(s, steps, i, maxRequestBytes), b)
    ensures a == b
  {
    RunKeepsInvariant(s, steps, i, maxRequestBytes);
  }

  /** The stream has been seen and is not stored any more. */
  predicate Gone(s: Session, id: U32) {
    id <= s.lastClientStreamId && id !in s.streams
  }

  lemma {:induction false} GoneForGood(s: Session, steps: seq<Step>, i: nat, j: nat, id: U32, maxRequestBytes: nat)
    requires GoodRun(s, steps, maxRequestBytes) && i <= j <= |steps|
    requires Gone(After(s, steps, i, maxRequestBytes), id)
    ensures Gone(After(s, steps, j, maxRequestBytes), id)
    decreases j
  {
    hide SafeDrops, Invariant, StepOf;
    if i < j {
      GoneForGood(s, steps, i, j - 1, id, maxRequestBytes);
      RunKeepsInvariant(s, steps, j - 1, maxRequestBytes);
      var before, o := After(s, steps, j - 1, maxRequestBytes), OutcomeAt(s, steps, j - 1, maxRequestBytes);
      assert After(s, steps, j, maxRequestBytes) == o.session;
      assert !Opens(before, o, id);
    }
  }

  // ----- every stream ends at most once

  /** No stored stream is above the largest id seen. */
  predicate IdsKnown(s: Session) {
    forall id :: id in s.streams ==> id <= s.lastClientStreamId
  }

  /** The stream has been seen, is not stored, and no header block of it is pending. */
  predicate Spent(s: Session, id: U32) {
    id <= s.lastClientStreamId && id !in s.streams && (s.pending.Some? ==> s.pending.value.streamId != id)
  }

  /** A step ends no stream that is spent, keeps those that are, and spends the one that it ends. */
  ghost predicate Spends(s: Session, o: Outcome) {
    && IdsKnown(o.session)
    && (forall id: U32 :: Spent(s, id) ==> Spent(o.session, id) && Ended(o.result) != Some(id))
    && (Ended(o.result).Some? ==> Spent(o.session, Ended(o.result).value))
  }

  lemma FewerSpends(s: Session, s': Session, result: SessionResult)
    requires IdsKnown(s) && s'.streams.Keys <= s.streams.Keys && s'.lastClientStreamId == s.lastClientStreamId
    requires s'.pending.None? || s'.pending == s.pending
    requires Ended(result).None?
    ensures Spends(s, Outcome(s', result))
  {
  }

  lemma FailSpends(s: Session, e: Failure)
    requires IdsKnown(s)
    ensures Spends(s, FailConnection(s, e))
  {
    hide FailureText, FailureCode, FrameString, Spends;
    FewerSpends(s, FailConnection(s, e).session, FailConnection(s, e).result);
  }

  lemma ResetSpends(s: Session, id: U32, code: U32)
    requires IdsKnown(s) && IsStreamId(id)
    ensures Spends(s, ResetStreamResult(s, id, code))
  {
    hide FrameString, Spends;
    FewerSpends(s, ResetStreamResult(s, id, code).session, ResetStreamResult(s, id, code).result);
  }

  lemma OpenSpends(s: Session, id: U32, endStream: bool, headers: seq<HeaderField>)
    requires IdsKnown(s) && s.pending.None? && IsStreamId(id) && (id in s.streams || id > s.lastClientStreamId)
    ensures var begun := WithHeaders(s, id, endStream, headers);
            Spends(s, if endStream then CompleteStream(begun, id) else Outcome(begun, NOTHING))
  {
    hide Built;
  }

  lemma SpendsWith(s: Session, s1: Session, o: Outcome, result: SessionResult)
    requires s1.streams == s.streams && s1.lastClientStreamId == s.lastClientStreamId
    requires s1.pending == s.pending || s1.pending.None?
    requires Spends(s1, o) && Ended(result) == Ended(o.result)
    ensures Spends(s, Outcome(o.session, result))
  {
    assert forall id: U32 :: Spent(s, id) ==> Spent(s1, id);
  }

  lemma DecodeSpends(s: Session, id: U32, endStream: bool, block: Bytes)
    requires IdsKnown(s) && s.pending.None? && IsStreamId(id) && (id in s.streams || id > s.lastClientStreamId)
    ensures Spends(s, DecodeHeaders(s, id, endStream, block))
  {
    hide HpackBlocks.DecodeBlock, CompleteStream, WithHeaders, ResetStreamResult, Spends;
    var decoded := HpackBlocks.DecodeBlock(block, s.table, false);
    var s1 := s.(table := decoded.table);
    var o := DecodeHeaders(s, id, endStream, block);
    ResetSpends(s1, id, ERROR_COMPRESSION);
    ResetSpends(s1, id, ERROR_PROTOCOL);
    if decoded.headers.Err? {
      SpendsWith(s, s1, ResetStreamResult(s1, id, ERROR_COMPRESSION), o.result);
    } else {
      OpenSpends(s1, id, endStream, decoded.headers.value);
      SpendsWith(s, s1, o, o.result);
    }
  }

  lemma PendingSpends(s: Session, p: Pending)
    requires IdsKnown(s) && (p.streamId in s.streams || p.streamId > s.lastClientStreamId
                             || (s.pending.Some? && s.pending.value.streamId == p.streamId))
    ensures Spends(s, Outcome(s.(pending := Some(p)), NOTHING))
  {
  }

  lemma HeadersSpend(s: Session, f: Frame, maxRequestBytes: nat)
    requires IdsKnown(s) && IsStreamId(f.streamId)
    ensures Spends(s, HandleHeaders(s, f, maxRequestBytes))
  {
    hide Spends, DecodeHeaders, FailConnection, ResetStreamResult, HeaderBlockPayload, IdsKnown;
    FailSpends(s, HeadersDuringPending);
    FailSpends(s, EvenStreamId);
    ResetSpends(s, f.streamId, ERROR_STREAM_CLOSED);
    ResetSpends(s, f.streamId, ERROR_PROTOCOL);
    ResetSpends(s, f.streamId, ERROR_ENHANCE_YOUR_CALM);
    if s.pending.None? && (f.streamId in s.streams || f.streamId > s.lastClientStreamId)
        && HeaderBlockPayload(f).Some? {
      PendingSpends(s, Pending(f.streamId, EndsStream(f), HeaderBlockPayload(f).value));
      DecodeSpends(s, f.streamId, EndsStream(f), HeaderBlockPayload(f).value);
    }
  }

  /** A block that is pending for a stream that was dropped opens it again, and may end it then;
      the stream is not spent before. */
  lemma ReopenSpends(s: Session, id: U32, endStream: bool, headers: seq<HeaderField>)
    requires IdsKnown(s) && s.pending.Some? && s.pending.value.streamId == id && IsStreamId(id)
    ensures var begun := WithHeaders(s.(pending := None), id, endStream, headers);
            Spends(s, if endStream then CompleteStream(begun, id) else Outcome(begun, NOTHING))
  {
    hide Built;
  }

  lemma ContinuedSpends(s: Session, endStream: bool, block: Bytes)
    requires IdsKnown(s) && s.pending.Some? && IsStreamId(s.pending.value.streamId)
    ensures Spends(s, DecodeHeaders(s.(pending := None), s.pending.value.streamId, endStream, block))
  {
    hide HpackBlocks.DecodeBlock, CompleteStream, WithHeaders, ResetStreamResult, Spends;
    var id, s0 := s.pending.value.streamId, s.(pending := None);
    var decoded := HpackBlocks.DecodeBlock(block, s.table, false);
    var s1, s2 := s0.(table := decoded.table), s.(table := decoded.table);
    var o := DecodeHeaders(s0, id, endStream, block);
    ResetSpends(s1, id, ERROR_COMPRESSION);
    ResetSpends(s1, id, ERROR_PROTOCOL);
    if decoded.headers.Err? {
      SpendsWith(s, s1, ResetStreamResult(s1, id, ERROR_COMPRESSION), o.result);
    } else if id in s.streams && s.streams[id].headersReceived {
      SpendsWith(s, s1, o, o.result);
    } else {
      ReopenSpends(s2, id, endStream, decoded.headers.value);
      assert s2.(pending := None) == s1;
      SpendsWith(s, s2, o, o.result);
    }
  }

  lemma ContinuationSpends(s: Session, f: Frame, maxRequestBytes: nat)
    requires IdsKnown(s) && IsStreamId(f.streamId)
    ensures Spends(s, HandleContinuation(s, f, maxRequestBytes))
  {
    hide Spends, DecodeHeaders, FailConnection, ResetStreamResult, IdsKnown;
    FailSpends(s, UnmatchedContinuation);
    if s.pending.Some? && s.pending.value.streamId == f.streamId {
      var p, s1 := s.pending.value, s.(pending := None);
      assert IdsKnown(s1) by { SameIds(s, s1); }
      ResetSpends(s1, f.streamId, ERROR_ENHANCE_YOUR_CALM);
      var reset := ResetStreamResult(s1, f.streamId, ERROR_ENHANCE_YOUR_CALM);
      SpendsWith(s, s1, reset, reset.result);
      PendingSpends(s, p.(block := p.block + f.payload));
      ContinuedSpends(s, p.endStream, p.block + f.payload);
    }
  }

  lemma SameIds(s: Session, s1: Session)
    requires IdsKnown(s) && s1.streams == s.streams && s1.lastClientStreamId == s.lastClientStreamId
    ensures IdsKnown(s1)
  {
  }

  lemma BodySpends(s: Session, id: U32, stream: Stream, output: Bytes)
    requires IdsKnown(s) && s.pending.None? && IsStreamId(id) && id in s.streams
    ensures Spends(s, Outcome(s.(streams := s.streams[id := stream]), NOTHING.(output := output)))
    ensures var done := CompleteStream(s.(streams := s.streams[id := stream]), id);
            Spends(s, done.(result := done.result.(output := output)))
  {
    hide Built;
  }

  lemma DataSpends(s: Session, f: Frame, maxRequestBytes: nat)
    requires IdsKnown(s) && s.pending.None? && ValidFrame(f, DEFAULT_MAX_FRAME_SIZE) && IsStreamId(f.streamId)
    ensures Spends(s, HandleData(s, f, maxRequestBytes))
  {
    hide Spends, CompleteStream, FailConnection, ResetStreamResult, WindowUpdates, IdsKnown, Unpadded;
    FailSpends(s, WindowExceeded);
    ResetSpends(s, f.streamId, ERROR_STREAM_CLOSED);
    ResetSpends(s, f.streamId, ERROR_PROTOCOL);
    ResetSpends(s, f.streamId, ERROR_ENHANCE_YOUR_CALM);
    if f.streamId in s.streams && DataPayload(f).Some? {
      var payload := DataPayload(f).value;
      var grown := s.streams[f.streamId].(body := s.streams[f.streamId].body + payload);
      var last := grown.(lifecycle := HalfClosedRemote);
      var done := CompleteStream(s.(streams := s.streams[f.streamId := last]), f.streamId);
      BodySpends(s, f.streamId, grown, WindowUpdates(f.streamId, |payload|));
      BodySpends(s, f.streamId, last, WindowUpdates(f.streamId, |payload|) + done.result.output);
    }
  }

  lemma FrameSpends(s: Session, f: Frame, maxRequestBytes: nat)
    requires IdsKnown(s) && ValidFrame(f, DEFAULT_MAX_FRAME_SIZE)
    ensures Spends(s, HandleFrame(s, f, maxRequestBytes))
  {
    hide Spends, HandleHeaders, HandleContinuation, HandleData, FailConnection, FrameString, ApplySettings, IdsKnown;
    FailSpends(s, ExpectedContinuation);
    FailSpends(s, PushPromise);
    if f.kind == HEADERS {
      HeadersSpend(s, f, maxRequestBytes);
    } else if f.kind == CONTINUATION {
      ContinuationSpends(s, f, maxRequestBytes);
    } else if f.kind == DATA && s.pending.None? {
      DataSpends(s, f, maxRequestBytes);
    } else if f.kind != PUSH_PROMISE && s.pending.None? {
      var o := HandleFrame(s, f, maxRequestBytes);
      FewerSpends(s, o.session, o.result);
    }
  }

  lemma {:induction false} RunSpends(s: Session, steps: seq<Step>, n: nat, maxRequestBytes: nat)
    requires ValidSteps(steps) && IdsKnown(s) && n <= |steps|
    ensures IdsKnown(After(s, steps, n, maxRequestBytes))
    ensures n < |steps| ==> Spends(After(s, steps, n, maxRequestBytes), OutcomeAt(s, steps, n, maxRequestBytes))
    decreases n
  {
    hide IdsKnown, HandleFrame;
    if n > 0 {
      RunSpends(s, steps, n - 1, maxRequestBytes);
    }
    if n < |steps| {
      var s1 := After(s, steps, n, maxRequestBytes);
      assert steps[n].Valid();
      match steps[n]
      case Receive(frame) => FrameSpends(s1, frame, maxRequestBytes);
      case Drop(streamId) => FewerSpends(s1, Forget(s1, streamId), NOTHING);
    }
  }

  lemma {:induction false} SpentForGood(s: Session, steps: seq<Step>, i: nat, j: nat, id: U32, maxRequestBytes: nat)
    requires ValidSteps(steps) && IdsKnown(s) && i <= j <= |steps|
    requires Spent(After(s, steps, i, maxRequestBytes), id)
    ensures Spent(After(s, steps, j, maxRequestBytes), id)
    decreases j
  {
    hide IdsKnown, StepOf, Spent;
    if i < j {
      SpentForGood(s, steps, i, j - 1, id, maxRequestBytes);
      RunSpends(s, steps, j - 1, maxRequestBytes);
      assert After(s, steps, j, maxRequestBytes) == OutcomeAt(s, steps, j - 1, maxRequestBytes).session;
    }
  }

  /** Over any run, whatever streams are dropped, no stream ends twice, be it with a request or with
      an error response. */
  lemma StreamsEndOnce(s: Session, steps: seq<Step>, i: nat, j: nat, a: U32, b: U32, maxRequestBytes: nat)
    requires ValidSteps(steps) && IdsKnown(s) && i < j < |steps|
    requires Ended(OutcomeAt(s, steps, i, maxRequestBytes).result) == Some(a)
    requires Ended(OutcomeAt(s, steps, j, maxRequestBytes).result) == Some(b)
    ensures a != b
  {
    hide IdsKnown, StepOf, Spent;
    RunSpends(s, steps, i, maxRequestBytes);
    RunSpends(s, steps, j, maxRequestBytes);
    assert After(s, steps, i + 1, maxRequestBytes) == OutcomeAt(s, steps, i, maxRequestBytes).session;
    SpentForGood(s, steps, i + 1, j, a, maxRequestBytes);
  }

  // ----- every stream that ends was opened

  /** Some step of the first `n` opens `id`. */
  ghost predicate OpenedBefore(s: Session, steps: seq<Step>, n: nat, id: U32, maxRequestBytes: nat)
    requires ValidSteps(steps) && n <= |steps|
  {
    exists i :: 0 <= i < n && Opens(After(s, steps, i, maxRequestBytes), OutcomeAt(s, steps, i, maxRequestBytes), id)
  }

  lemma {:induction false} StoredWasOpened(s: Session, steps: seq<Step>, n: nat, id: U32, maxRequestBytes: nat)
    requires GoodRun(s, steps, maxRequestBytes) && n <= |steps|
    requires id in After(s, steps, n, maxRequestBytes).streams
    ensures id in s.streams || OpenedBefore(s, steps, n, id, maxRequestBytes)
    decreases n
  {
    hide Invariant, StepOf;
    if n > 0 {
      var before, o := After(s, steps, n - 1, maxRequestBytes), OutcomeAt(s, steps, n - 1, maxRequestBytes);
      assert After(s, steps, n, maxRequestBytes) == o.session;
      if id in before.streams {
        StoredWasOpened(s, steps, n - 1, id, maxRequestBytes);
      } else {
        assert Opens(before, o, id);
      }
    }
  }

  /** Only streams that were opened end. */
  lemma EndedWasOpened(s: Session, steps: seq<Step>, j: nat, id: U32, maxRequestBytes: nat)
    requires GoodRun(s, steps, maxRequestBytes) && j < |steps|
    requires Ended(OutcomeAt(s, steps, j, maxRequestBytes).result) == Some(id)
    ensures id in s.streams || OpenedBefore(s, steps, j + 1, id, maxRequestBytes)
  {
    hide Invariant, StepOf;
    RunKeepsInvariant(s, steps, j, maxRequestBytes);
    if id in After(s, steps, j, maxRequestBytes).streams {
      StoredWasOpened(s, steps, j, id, maxRequestBytes);
    }
  }

  // ----- when a drop is not safe

  /** A drop keeps the invariant if and only if it is safe. */
  lemma SafeDropExactly(s: Session, streamId: U32)
    requires Invariant(s)
    ensures Invariant(Forget(s, streamId)) <==> SafeDrop(s, streamId)
  {
    if SafeDrop(s, streamId) {
      DropKeeps(s, streamId);
    } else {
      assert StreamInvariant(s, streamId);
    }
  }

  /** After an unsafe drop the rest of the pending block opens the stream a second time, under
      an id that is not above all earlier ones. */
  lemma UnsafeDropReopens(s: Session, streamId: U32, maxRequestBytes: nat)
    requires Invariant(s) && !SafeDrop(s, streamId)
    requires |s.pending.value.block| <= maxRequestBytes
    requires HpackBlocks.DecodeBlock(s.pending.value.block, s.table, false).headers.Ok?
    ensures var f := Frame(CONTINUATION, 0x4, streamId, []);
      var dropped := Forget(s, streamId);
      && streamId <= dropped.lastClientStreamId
      && ValidFrame(f, DEFAULT_MAX_FRAME_SIZE)
      && Opens(dropped, HandleFrame(dropped, f, maxRequestBytes), streamId)
  {
    hide HpackBlocks.DecodeBlock, Built;
    assert StreamInvariant(s, streamId);
    assert s.pending.value.block + [] == s.pending.value.block;
  }

  const FRESH := Session(true, 0, INITIAL_WINDOW, Table([], 4096), None, map[])

  function OpenFrame(): Frame {
    Frame(HEADERS, 0x4, 1, [])
  }

  function UnfinishedFrame(): Frame {
    Frame(HEADERS, 0, 1, [])
  }

  const ONE_OPEN := FRESH.(streams := map[1 := NEW_STREAM.(id := 1, headersReceived := true)], lastClientStreamId := 1)
  const ONE_PENDING := ONE_OPEN.(pending := Some(Pending(1, false, [])))

  lemma OpenOne(maxRequestBytes: nat)
    ensures HandleFrame(FRESH, OpenFrame(), maxRequestBytes) == Outcome(ONE_OPEN, NOTHING)
  {
    var s := FRESH;
    assert HpackBlocks.DecodeBlock([], s.table, false) == HpackBlocks.BlockResult(Ok([]), s.table);
    assert WithHeaders(s, 1, false, []) == ONE_OPEN;
    hide WithHeaders, HpackBlocks.DecodeBlock;
    assert DecodeHeaders(s, 1, false, []) == Outcome(ONE_OPEN, NOTHING);
    hide DecodeHeaders;
  }

  lemma LeaveOnePending(maxRequestBytes: nat)
    ensures HandleFrame(ONE_OPEN, UnfinishedFrame(), maxRequestBytes) == Outcome(ONE_PENDING, NOTHING)
  {
  }

  /** Such a state is reached from a fresh session: two HEADERS frames of one stream, the
      second unfinished. */
  lemma UnsafeDropIsReachable(maxRequestBytes: nat)
    ensures var steps := [Receive(OpenFrame()), Receive(UnfinishedFrame()), Drop(1)];
      && ValidSteps(steps) && Invariant(FRESH)
      && Opens(FRESH, OutcomeAt(FRESH, steps, 0, maxRequestBytes), 1)
      && After(FRESH, steps, 2, maxRequestBytes) == ONE_PENDING
      && Invariant(ONE_PENDING) && !SafeDrop(ONE_PENDING, 1)
      && HpackBlocks.DecodeBlock(ONE_PENDING.pending.value.block, ONE_PENDING.table, false).headers.Ok?
  {
    var steps := [Receive(OpenFrame()), Receive(UnfinishedFrame()), Drop(1)];
    OpenOne(maxRequestBytes);
    LeaveOnePending(maxRequestBytes);
    hide HandleFrame;
    assert After(FRESH, steps, 1, maxRequestBytes) == ONE_OPEN;
  }
}
