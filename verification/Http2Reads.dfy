/** The session does not see how the network cuts its input into reads: draining the buffer
    after each read gives the same results and the same session as one read of everything. */
module Http2Reads {
  import opened Octets
  import opened Http2Frame
  import opened Http2Session
  import opened Http2Server

  // ----- draining the buffer, as the connection does after each read

  datatype Drained = Drained(session: Session, buffer: Bytes, results: seq<SessionResult>) {
    function Behind(r: SessionResult): Drained {
      this.(results := [r] + results)
    }

    function After(front: seq<SessionResult>): Drained {
      this.(results := front + results)
    }
  }

  /** Each call that shows a result has closed the connection or used up input. */
  lemma {:induction false} ProcessProgress(s: Session, buffer: Bytes, maxRequestBytes: nat)
    ensures var p := ProcessInput(s, buffer, maxRequestBytes);
      && |p.buffer| <= |buffer|
      && (Visible(p.result) ==> |p.buffer| < |buffer|)
      && (!Visible(p.result) ==>
          !p.session.active || p.buffer == [] || ParseFrame(p.buffer, DEFAULT_MAX_FRAME_SIZE).Incomplete?)
    decreases |buffer|
  {
    hide HandleFrame, ParseFrame;
    if s.active && buffer != [] && |buffer| <= maxRequestBytes {
      match ParseFrame(buffer, DEFAULT_MAX_FRAME_SIZE)
      case Parsed(frame, consumed) =>
        ProcessProgress(HandleFrame(s, frame, maxRequestBytes).session, buffer[consumed..], maxRequestBytes);
      case _ =>
    }
  }

  /** Calls `process_input` until it shows nothing more. */
  ghost function Drain(s: Session, buffer: Bytes, maxRequestBytes: nat): Drained
    decreases |buffer|
  {
    var p := ProcessInput(s, buffer, maxRequestBytes);
    ProcessProgress(s, buffer, maxRequestBytes);
    if Visible(p.result) then Drain(p.session, p.buffer, maxRequestBytes).Behind(p.result)
    else Drained(p.session, p.buffer, [])
  }

  /** The draining loop; it ends because each round uses up input. */
  method DrainInput(session: ServerSession, input: Bytes, maxRequestBytes: nat)
    returns (buffer: Bytes, results: seq<SessionResult>)
    requires session.Valid()
    modifies session, session.decoder
    ensures session.Valid()
    ensures Drained(session.State(), buffer, results) == Drain(old(session.State()), input, maxRequestBytes)
  {
    hide ProcessInput;
    buffer, results := input, [];
    assert forall d: Drained :: d.After([]) == d by {
      forall d: Drained
        ensures d.After([]) == d
      {
        assert [] + d.results == d.results;
      }
    }
    while true
      invariant session.Valid()
      invariant Drain(session.State(), buffer, maxRequestBytes).After(results)
          == Drain(old(session.State()), input, maxRequestBytes)
      decreases |buffer|
    {
      ProcessProgress(session.State(), buffer, maxRequestBytes);
      ghost var before := Drain(session.State(), buffer, maxRequestBytes);
      var r;
      buffer, r := session.Process(buffer, maxRequestBytes);
      if !Visible(r) {
        assert results + [] == results;
        return;
      }
      ghost var rest := Drain(session.State(), buffer, maxRequestBytes);
      assert results + ([r] + rest.results) == (results + [r]) + rest.results;
      results := results + [r];
    }
  }

  // ----- the reference: one pass over the octets, frame by frame

  /** Handles frame after frame and collects the visible results; no buffer limit. */
  ghost function Consume(s: Session, octets: Bytes, maxRequestBytes: nat): Drained
    decreases |octets|
  {
    if !s.active || octets == [] then Drained(s, octets, [])
    else
      match ParseFrame(octets, DEFAULT_MAX_FRAME_SIZE)
      case Incomplete => Drained(s, octets, [])
      case Invalid(e) =>
        var failed := FailConnection(s, BadFrame(e));
        Drained(failed.session, [], [failed.result])
      case Parsed(frame, consumed) =>
        var next := HandleFrame(s, frame, maxRequestBytes);
        var rest := Consume(next.session, octets[consumed..], maxRequestBytes);
        if Visible(next.result) then rest.Behind(next.result) else rest
  }

  /** Draining a buffer within the limit is one pass over it. */
  lemma {:induction false} DrainIsConsume(s: Session, buffer: Bytes, maxRequestBytes: nat)
    requires |buffer| <= maxRequestBytes
    ensures Drain(s, buffer, maxRequestBytes) == Consume(s, buffer, maxRequestBytes)
    decreases |buffer|
  {
    hide HandleFrame, ParseFrame;
    if s.active && buffer != [] {
      match ParseFrame(buffer, DEFAULT_MAX_FRAME_SIZE)
      case Incomplete =>
      case Invalid(e) =>
        assert FailConnection(s, BadFrame(e)).result.output != [];
        assert Drain(FailConnection(s, BadFrame(e)).session, [], maxRequestBytes).results == [];
      case Parsed(frame, consumed) =>
        var next := HandleFrame(s, frame, maxRequestBytes);
        DrainIsConsume(next.session, buffer[consumed..], maxRequestBytes);
    }
  }

  /** One pass over two pieces is a pass over the first, and then one over what it left and
      the second. */
  lemma {:induction false} ConsumeInTwo(s: Session, a: Bytes, b: Bytes, maxRequestBytes: nat)
    ensures var first := Consume(s, a, maxRequestBytes);
      var second := Consume(first.session, first.buffer + b, maxRequestBytes).After(first.results);
      var whole := Consume(s, a + b, maxRequestBytes);
      && whole.session == second.session && whole.results == second.results
      && (whole.session.active ==> whole.buffer == second.buffer)
    decreases |a|
  {
    hide HandleFrame, ParseFrame, FailConnection;
    if s.active && a != [] {
      if !ParseFrame(a, DEFAULT_MAX_FRAME_SIZE).Incomplete? {
        ParseStable(a, b, DEFAULT_MAX_FRAME_SIZE);
      }
      match ParseFrame(a, DEFAULT_MAX_FRAME_SIZE)
      case Incomplete => NothingInFront(Consume(s, a + b, maxRequestBytes));
      case Invalid(e) => FailedIsInactive(s, BadFrame(e));
      case Parsed(frame, consumed) =>
        var next := HandleFrame(s, frame, maxRequestBytes);
        assert (a + b)[consumed..] == a[consumed..] + b;
        ConsumeInTwo(next.session, a[consumed..], b, maxRequestBytes);
        var first := Consume(next.session, a[consumed..], maxRequestBytes);
        var later := Consume(first.session, first.buffer + b, maxRequestBytes).results;
        assert [next.result] + (first.results + later) == ([next.result] + first.results) + later;
    } else {
      NothingInFront(Consume(s, a + b, maxRequestBytes));
    }
  }

  lemma NothingInFront(d: Drained)
    ensures d.After([]) == d
  {
    assert [] + d.results == d.results;
  }

  lemma FailedIsInactive(s: Session, e: Failure)
    ensures !FailConnection(s, e).session.active && FailConnection(s, e).result.output != []
  {
    hide FailureText, FailureCode;
  }

  // ----- many reads

  /** Appends each read to the buffer and drains it. */
  ghost function Feed(s: Session, buffer: Bytes, cutting: seq<Bytes>, maxRequestBytes: nat): Drained
    decreases |cutting|
  {
    if cutting == [] then Drained(s, buffer, [])
    else
      var d := Drain(s, buffer + cutting[0], maxRequestBytes);
      Feed(d.session, d.buffer, cutting[1..], maxRequestBytes).After(d.results)
  }

  /** The buffer never exceeds the limit while the connection is up. */
  ghost predicate WithinBuffer(s: Session, buffer: Bytes, cutting: seq<Bytes>, maxRequestBytes: nat)
    decreases |cutting|
  {
    cutting == [] || !s.active ||
    (|buffer + cutting[0]| <= maxRequestBytes &&
     var d := Drain(s, buffer + cutting[0], maxRequestBytes);
     WithinBuffer(d.session, d.buffer, cutting[1..], maxRequestBytes))
  }

  lemma InactiveStays(s: Session, buffer: Bytes, cutting: seq<Bytes>, maxRequestBytes: nat)
    requires !s.active
    ensures var d := Feed(s, buffer, cutting, maxRequestBytes); d.session == s && d.results == []
    ensures forall octets :: Consume(s, octets, maxRequestBytes) == Drained(s, octets, [])
    decreases |cutting|
  {
    hide HandleFrame, ParseFrame;
    if cutting != [] {
      InactiveStays(s, buffer + cutting[0], cutting[1..], maxRequestBytes);
    }
  }

  /** Every cutting of the input gives what one pass over the whole input gives. */
  lemma {:induction false} ReadsDoNotMatter(s: Session, buffer: Bytes, cutting: seq<Bytes>, maxRequestBytes: nat)
    requires WithinBuffer(s, buffer, cutting, maxRequestBytes)
    requires Consume(s, buffer, maxRequestBytes) == Drained(s, buffer, [])
    ensures var fed := Feed(s, buffer, cutting, maxRequestBytes);
      var whole := Consume(s, buffer + Concat(cutting), maxRequestBytes);
      && fed.session == whole.session && fed.results == whole.results
      && (fed.session.active ==> fed.buffer == whole.buffer)
    decreases |cutting|
  {
    hide Drain, Consume, ProcessInput, HandleFrame, ParseFrame;
    if cutting == [] {
      assert buffer + [] == buffer;
    } else if !s.active {
      InactiveStays(s, buffer, cutting, maxRequestBytes);
    } else {
      var d := Drain(s, buffer + cutting[0], maxRequestBytes);
      DrainIsConsume(s, buffer + cutting[0], maxRequestBytes);
      ConsumeInTwo(s, buffer + cutting[0], Concat(cutting[1..]), maxRequestBytes);
      assert buffer + Concat(cutting) == (buffer + cutting[0]) + Concat(cutting[1..]);
      DrainedIsDry(s, buffer + cutting[0], maxRequestBytes);
      ReadsDoNotMatter(d.session, d.buffer, cutting[1..], maxRequestBytes);
    }
  }

  /** After a pass nothing more can be handled. */
  lemma {:induction false} DrainedIsDry(s: Session, octets: Bytes, maxRequestBytes: nat)
    ensures var d := Consume(s, octets, maxRequestBytes);
      Consume(d.session, d.buffer, maxRequestBytes) == Drained(d.session, d.buffer, [])
    decreases |octets|
  {
    hide HandleFrame, ParseFrame, FailConnection;
    if s.active && octets != [] {
      match ParseFrame(octets, DEFAULT_MAX_FRAME_SIZE)
      case Incomplete =>
      case Invalid(e) => FailedIsInactive(s, BadFrame(e));
      case Parsed(frame, consumed) =>
        DrainedIsDry(HandleFrame(s, frame, maxRequestBytes).session, octets[consumed..], maxRequestBytes);
    }
  }

  /** Two cuttings of the same octets give the same results and the same session. */
  lemma CuttingsAgree(s: Session, cutting1: seq<Bytes>, cutting2: seq<Bytes>, maxRequestBytes: nat)
    requires Concat(cutting1) == Concat(cutting2)
    requires WithinBuffer(s, [], cutting1, maxRequestBytes) && WithinBuffer(s, [], cutting2, maxRequestBytes)
    ensures var d1, d2 := Feed(s, [], cutting1, maxRequestBytes), Feed(s, [], cutting2, maxRequestBytes);
      d1.session == d2.session && d1.results == d2.results
  {
    assert Consume(s, [], maxRequestBytes) == Drained(s, [], []);
    hide Drain, Consume, Feed, WithinBuffer;
    ReadsDoNotMatter(s, [], cutting1, maxRequestBytes);
    ReadsDoNotMatter(s, [], cutting2, maxRequestBytes);
  }
}
