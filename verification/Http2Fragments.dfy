/** Header blocks cut into HEADERS and CONTINUATION frames (section 6.10 of RFC 9113), and the
    frames of an input as a run. */
module Http2Fragments {
  import opened Wrappers
  import opened Octets
  import opened Http2Frame
  import opened Http2Session
  import opened Http2Runs
  import opened Http2Histories
  import opened Http2Reads

  // ----- fragments

  datatype Handled = Handled(session: Session, results: seq<SessionResult>)

  /** Handles a list of frames, one after the other. */
  ghost function HandleAll(s: Session, frames: seq<Frame>, maxRequestBytes: nat): Handled
    requires forall i :: 0 <= i < |frames| ==> ValidFrame(frames[i], DEFAULT_MAX_FRAME_SIZE)
    decreases |frames|
  {
    if frames == [] then Handled(s, [])
    else
      var o := HandleFrame(s, frames[0], maxRequestBytes);
      var rest := HandleAll(o.session, frames[1..], maxRequestBytes);
      Handled(rest.session, [o.result] + rest.results)
  }

  /** CONTINUATION frames of stream `id`, of which only the last ends the header block. */
  predicate AreContinuations(frames: seq<Frame>, id: U32) {
    && frames != []
    && forall i :: 0 <= i < |frames| ==>
         && ValidFrame(frames[i], DEFAULT_MAX_FRAME_SIZE)
         && frames[i].kind == CONTINUATION && frames[i].streamId == id
         && (EndsHeaders(frames[i]) <==> i == |frames| - 1)
  }

  /** Nothing is shown for any frame but the last. */
  function Silence(n: nat): (r: seq<SessionResult>)
    ensures |r| == n && forall i :: 0 <= i < n ==> r[i] == NOTHING
  {
    seq(n, _ => NOTHING)
  }

  lemma {:induction false} ContinuationsAssemble(s: Session, frames: seq<Frame>, maxRequestBytes: nat)
    requires s.pending.Some? && AreContinuations(frames, s.pending.value.streamId)
    requires |s.pending.value.block| + |Payloads(frames)| <= maxRequestBytes
    ensures var p := s.pending.value;
      var whole := DecodeHeaders(s.(pending := None), p.streamId, p.endStream, p.block + Payloads(frames));
      HandleAll(s, frames, maxRequestBytes) == Handled(whole.session, Silence(|frames| - 1) + [whole.result])
    decreases |frames|
  {
    hide DecodeHeaders, FailConnection, ResetStreamResult, HandleHeaders, HandleData, Violation;
    var p, f, later := s.pending.value, frames[0], frames[1..];
    assert ValidFrame(f, DEFAULT_MAX_FRAME_SIZE) && f.kind == CONTINUATION && f.streamId == p.streamId;
    var o := HandleFrame(s, f, maxRequestBytes);
    if later == [] {
      assert EndsHeaders(f);
      assert Payloads(later) == [] && f.payload + [] == f.payload;
      assert Silence(0) + [o.result] == [o.result] + [];
    } else {
      assert !EndsHeaders(f);
      var s1 := s.(pending := Some(p.(block := p.block + f.payload)));
      assert o == Outcome(s1, NOTHING);
      assert forall i :: 0 <= i < |later| ==> later[i] == frames[i + 1];
      assert p.block + (f.payload + Payloads(later)) == p.block + f.payload + Payloads(later);
      ContinuationsAssemble(s1, later, maxRequestBytes);
      assert s1.(pending := None) == s.(pending := None);
      assert [NOTHING] + Silence(|later| - 1) == Silence(|frames| - 1);
      ghost var last := HandleAll(s1, later, maxRequestBytes).results[|later| - 1];
      assert [NOTHING] + (Silence(|later| - 1) + [last]) == ([NOTHING] + Silence(|later| - 1)) + [last];
    }
  }

  /** A HEADERS frame that may go on to open its stream or to be refused for its fields. */
  predicate Admitted(s: Session, f: Frame) {
    && ValidFrame(f, DEFAULT_MAX_FRAME_SIZE) && f.kind == HEADERS && f.streamId % 2 == 1
    && (f.streamId in s.streams || f.streamId > s.lastClientStreamId) && s.pending.None?
  }

  /** A HEADERS frame with the whole block of a fragmented one. */
  predicate IsWhole(whole: Frame, head: Frame, block: Bytes) {
    && ValidFrame(whole, DEFAULT_MAX_FRAME_SIZE) && whole.kind == HEADERS && whole.streamId == head.streamId
    && EndsHeaders(whole) && EndsStream(whole) == EndsStream(head) && HeaderBlockPayload(whole) == Some(block)
  }

  /** Fragmentation is invisible: for every split of a header block within the size limit, the
      final result and session are those of decoding the whole block at once, and those of any one
      HEADERS frame with the whole block. */
  lemma FragmentationInvisible(s: Session, head: Frame, rest: seq<Frame>, maxRequestBytes: nat)
    requires Admitted(s, head) && !EndsHeaders(head) && HeaderBlockPayload(head).Some?
    requires AreContinuations(rest, head.streamId)
    requires |HeaderBlockPayload(head).value| + |Payloads(rest)| <= maxRequestBytes
    ensures var block := HeaderBlockPayload(head).value + Payloads(rest);
      var o := DecodeHeaders(s, head.streamId, EndsStream(head), block);
      && HandleAll(s, [head] + rest, maxRequestBytes) == Handled(o.session, Silence(|rest|) + [o.result])
      && (forall whole :: IsWhole(whole, head, block) ==> HandleFrame(s, whole, maxRequestBytes) == o)
  {
    hide DecodeHeaders, FailConnection, ResetStreamResult, HandleContinuation, HandleData, Violation,
         HeaderBlockPayload, AreContinuations;
    assert IsStreamId(head.streamId);
    var s1 := s.(pending := Some(Pending(head.streamId, EndsStream(head), HeaderBlockPayload(head).value)));
    assert HandleFrame(s, head, maxRequestBytes) == Outcome(s1, NOTHING);
    assert ([head] + rest)[1..] == rest;
    ContinuationsValid(rest, head.streamId);
    ContinuationsAssemble(s1, rest, maxRequestBytes);
    assert s1.(pending := None) == s;
    ghost var last := HandleAll(s1, rest, maxRequestBytes).results[|rest| - 1];
    assert [NOTHING] + (Silence(|rest| - 1) + [last]) == Silence(|rest|) + [last];
  }

  lemma ContinuationsValid(frames: seq<Frame>, id: U32)
    requires AreContinuations(frames, id)
    ensures |frames| > 0 && forall i :: 0 <= i < |frames| ==> ValidFrame(frames[i], DEFAULT_MAX_FRAME_SIZE)
  {
  }

  lemma InterruptionFails(s: Session, f: Frame, maxRequestBytes: nat)
    requires s.pending.Some? && ValidFrame(f, DEFAULT_MAX_FRAME_SIZE)
    requires f.kind != CONTINUATION || f.streamId != s.pending.value.streamId
    ensures HandleFrame(s, f, maxRequestBytes)
            == FailConnection(s, if f.kind != CONTINUATION then ExpectedContinuation else UnmatchedContinuation)
  {
    hide FailConnection, HandleHeaders, HandleData;
  }

  lemma NothingWhenInactive(s: Session, later: Bytes, maxRequestBytes: nat)
    requires !s.active
    ensures Consume(s, later, maxRequestBytes) == Drained(s, later, [])
    ensures ProcessInput(s, later, maxRequestBytes) == Processed(s, later, NOTHING)
  {
  }

  /** Any other frame in between fails the connection, and nothing that follows is looked at. */
  lemma InterruptionFailsForGood(s: Session, f: Frame, later: Bytes, maxRequestBytes: nat)
    requires s.pending.Some? && ValidFrame(f, DEFAULT_MAX_FRAME_SIZE)
    requires f.kind != CONTINUATION || f.streamId != s.pending.value.streamId
    ensures var o := HandleFrame(s, f, maxRequestBytes);
      && o.result.output != [] && !o.result.keepConnection
      && o.session == s.(streams := map[], pending := None, active := false)
      && Consume(o.session, later, maxRequestBytes) == Drained(o.session, later, [])
      && ProcessInput(o.session, later, maxRequestBytes) == Processed(o.session, later, NOTHING)
  {
    hide HandleFrame, Consume, ProcessInput, FailureText, FailureCode;
    InterruptionFails(s, f, maxRequestBytes);
    FailedIsInactive(s, if f.kind != CONTINUATION then ExpectedContinuation else UnmatchedContinuation);
    NothingWhenInactive(HandleFrame(s, f, maxRequestBytes).session, later, maxRequestBytes);
  }

  // ----- an input as a run

  function Received(frames: seq<Frame>): (r: seq<Step>)
    requires forall i :: 0 <= i < |frames| ==> ValidFrame(frames[i], DEFAULT_MAX_FRAME_SIZE)
    ensures |r| == |frames| && ValidSteps(r)
    ensures forall i :: 0 <= i < |r| ==> r[i] == Receive(frames[i])
  {
    seq(|frames|, i requires 0 <= i < |frames| => Receive(frames[i]))
  }

  /** The visible results of the first `n` steps. */
  ghost function Shown(s: Session, steps: seq<Step>, n: nat, maxRequestBytes: nat): seq<SessionResult>
    requires n <= |steps| && ValidSteps(steps)
  {
    if n == 0 then []
    else
      var r := OutcomeAt(s, steps, n - 1, maxRequestBytes).result;
      Shown(s, steps, n - 1, maxRequestBytes) + if Visible(r) then [r] else []
  }

  lemma {:induction false} RunFromSecond(s: Session, steps: seq<Step>, n: nat, maxRequestBytes: nat)
    requires 0 < n <= |steps| && ValidSteps(steps)
    ensures ValidSteps(steps[1..]) && steps[0].Valid()
    ensures var o := StepOf(s, steps[0], maxRequestBytes);
      && After(s, steps, n, maxRequestBytes) == After(o.session, steps[1..], n - 1, maxRequestBytes)
      && Shown(s, steps, n, maxRequestBytes) ==
           (if Visible(o.result) then [o.result] else []) + Shown(o.session, steps[1..], n - 1, maxRequestBytes)
    decreases n
  {
    hide StepOf, Visible;
    assert steps[0].Valid() && forall i :: 0 <= i < |steps[1..]| ==> steps[1..][i] == steps[i + 1];
    if n > 1 {
      RunFromSecond(s, steps, n - 1, maxRequestBytes);
    } else {
      assert After(s, steps, 0, maxRequestBytes) == s;
    }
  }

  /** What is behind the first `n` frames. */
  function BehindFrames(octets: Bytes, n: nat): Bytes
    requires n <= |FramesIn(octets)|
    decreases n
  {
    if n == 0 then octets else BehindFrames(octets[ParseFrame(octets, DEFAULT_MAX_FRAME_SIZE).consumed..], n - 1)
  }

  /** Consuming `octets` runs through the first `n` of its frames. If there is `bad`, it is the
      verdict on the octets behind them, and fails the connection; and otherwise the connection
      is down or nothing is behind them but the beginning of a frame. */
  ghost predicate IsRunOf(s: Session, octets: Bytes, maxRequestBytes: nat, n: nat, bad: Option<FrameError>) {
    n <= |FramesIn(octets)| &&
    var d := Consume(s, octets, maxRequestBytes);
    var steps := Received(FramesIn(octets));
    var end := After(s, steps, n, maxRequestBytes);
    var behind := BehindFrames(octets, n);
    match bad
    case None =>
      && d == Drained(end, behind, Shown(s, steps, n, maxRequestBytes))
      && (end.active && behind != [] ==> ParseFrame(behind, DEFAULT_MAX_FRAME_SIZE).Incomplete?)
    case Some(e) =>
      var failed := FailConnection(end, BadFrame(e));
      && end.active && ParseFrame(behind, DEFAULT_MAX_FRAME_SIZE) == Invalid(e)
      && d == Drained(failed.session, [], Shown(s, steps, n, maxRequestBytes) + [failed.result])
  }

  lemma StepsOfInput(octets: Bytes)
    requires ParseFrame(octets, DEFAULT_MAX_FRAME_SIZE).Parsed?
    ensures var p := ParseFrame(octets, DEFAULT_MAX_FRAME_SIZE);
      var steps := Received(FramesIn(octets));
      |steps| > 0 && steps[0] == Receive(p.frame) && steps[1..] == Received(FramesIn(octets[p.consumed..]))
  {
    hide ParseFrame;
  }

  lemma OneFrameBefore(s: Session, octets: Bytes, maxRequestBytes: nat, n: nat, bad: Option<FrameError>)
    requires s.active && octets != [] && ParseFrame(octets, DEFAULT_MAX_FRAME_SIZE).Parsed?
    requires var p := ParseFrame(octets, DEFAULT_MAX_FRAME_SIZE);
      IsRunOf(HandleFrame(s, p.frame, maxRequestBytes).session, octets[p.consumed..], maxRequestBytes, n, bad)
    ensures IsRunOf(s, octets, maxRequestBytes, n + 1, bad)
  {
    hide HandleFrame, ParseFrame, FailConnection, Visible, Shown, After, FramesIn, Violation;
    StepsOfInput(octets);
    var p := ParseFrame(octets, DEFAULT_MAX_FRAME_SIZE);
    assert BehindFrames(octets, n + 1) == BehindFrames(octets[p.consumed..], n);
    var steps, o := Received(FramesIn(octets)), HandleFrame(s, p.frame, maxRequestBytes);
    RunFromSecond(s, steps, n + 1, maxRequestBytes);
    var first := if Visible(o.result) then [o.result] else [];
    var later := Shown(o.session, steps[1..], n, maxRequestBytes);
    var rest := Consume(o.session, octets[p.consumed..], maxRequestBytes);
    assert Consume(s, octets, maxRequestBytes).results == first + rest.results;
    if bad.Some? {
      var end := [FailConnection(After(s, steps, n + 1, maxRequestBytes), BadFrame(bad.value)).result];
      assert first + (later + end) == (first + later) + end;
    }
  }

  /** Consuming an input is running through its frames, up to the failure of the connection;
      an invalid frame that is reached fails it. */
  lemma {:induction false} ConsumeIsARun(s: Session, octets: Bytes, maxRequestBytes: nat) returns (n: nat,
      bad: Option<FrameError>)
    ensures IsRunOf(s, octets, maxRequestBytes, n, bad)
    decreases |octets|
  {
    hide HandleFrame, ParseFrame, FailConnection, Visible;
    n, bad := 0, None;
    if s.active && octets != [] {
      match ParseFrame(octets, DEFAULT_MAX_FRAME_SIZE)
      case Incomplete =>
      case Invalid(e) =>
        bad := Some(e);
        assert [] + [FailConnection(s, BadFrame(e)).result] == [FailConnection(s, BadFrame(e)).result];
      case Parsed(frame, consumed) =>
        hide IsRunOf;
        n, bad := ConsumeIsARun(HandleFrame(s, frame, maxRequestBytes).session, octets[consumed..], maxRequestBytes);
        OneFrameBefore(s, octets, maxRequestBytes, n, bad);
        n := n + 1;
    }
  }

  // ----- so what holds of runs holds of inputs

  lemma {:induction false} ShownGrows(s: Session, steps: seq<Step>, n: nat, m: nat, maxRequestBytes: nat)
    requires n <= m <= |steps| && ValidSteps(steps)
    ensures |Shown(s, steps, n, maxRequestBytes)| <= |Shown(s, steps, m, maxRequestBytes)|
    decreases m
  {
    hide StepOf, Visible;
    if n < m {
      ShownGrows(s, steps, n, m - 1, maxRequestBytes);
    }
  }

  /** The step that a visible result comes from. */
  lemma {:induction false} ShownAt(s: Session, steps: seq<Step>, n: nat, k: nat, maxRequestBytes: nat) returns (i: nat)
    requires n <= |steps| && ValidSteps(steps) && k < |Shown(s, steps, n, maxRequestBytes)|
    ensures i < n && |Shown(s, steps, i, maxRequestBytes)| == k
    ensures Shown(s, steps, n, maxRequestBytes)[k] == OutcomeAt(s, steps, i, maxRequestBytes).result
    decreases n
  {
    hide StepOf, Visible;
    if k < |Shown(s, steps, n - 1, maxRequestBytes)| {
      i := ShownAt(s, steps, n - 1, k, maxRequestBytes);
    } else {
      i := n - 1;
    }
  }

  /** Whatever octets arrive, in whatever reads, no stream ends twice among the results. */
  lemma InputEndsStreamsOnce(s: Session, cutting: seq<Bytes>, maxRequestBytes: nat, k: nat, m: nat, a: U32, b: U32)
    requires IdsKnown(s) && WithinBuffer(s, [], cutting, maxRequestBytes)
    requires k < m < |Feed(s, [], cutting, maxRequestBytes).results|
    requires Ended(Feed(s, [], cutting, maxRequestBytes).results[k]) == Some(a)
    requires Ended(Feed(s, [], cutting, maxRequestBytes).results[m]) == Some(b)
    ensures a != b
  {
    hide Consume, Feed, WithinBuffer, FailConnection, IdsKnown, HandleFrame, ParseFrame, FramesIn, BehindFrames,
         Shown, After, StepOf;
    NothingConsumed(s, maxRequestBytes);
    var octets := Concat(cutting);
    assert [] + octets == octets;
    ReadsDoNotMatter(s, [], cutting, maxRequestBytes);
    var n, bad := ConsumeIsARun(s, octets, maxRequestBytes);
    var steps := Received(FramesIn(octets));
    var shown := Shown(s, steps, n, maxRequestBytes);
    if bad.Some? {
      FailureEndsNothing(After(s, steps, n, maxRequestBytes), BadFrame(bad.value));
      assert m < |shown|;
    }
    var i := ShownAt(s, steps, n, k, maxRequestBytes);
    var j := ShownAt(s, steps, n, m, maxRequestBytes);
    if j <= i {
      ShownGrows(s, steps, j, i, maxRequestBytes);
    }
    StreamsEndOnce(s, steps, i, j, a, b, maxRequestBytes);
  }

  lemma NothingConsumed(s: Session, maxRequestBytes: nat)
    ensures Consume(s, [], maxRequestBytes) == Drained(s, [], [])
  {
  }

  lemma FailureEndsNothing(s: Session, e: Failure)
    ensures Ended(FailConnection(s, e).result) == None
  {
    hide FailureText, FailureCode;
  }
}
