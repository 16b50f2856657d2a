/** The connection's side of a request body that arrives in pieces: the loops over its buffer. */
module BodyStream {
  import opened Wrappers
  import opened Octets
  import opened ChunkedBody
  import opened ChunkedStream
  import opened RequestBody

  // ----- bodies with a Content-Length

  datatype LengthProgress = More(body: Bytes) | Whole(body: Bytes, rest: Bytes)

  function LengthRun(length: nat, body: Bytes, buffer: Bytes): LengthProgress
    requires |body| <= length
  {
    var take := if length - |body| < |buffer| then length - |body| else |buffer|;
    if |body| + take == length then Whole(body + buffer[..take], buffer[take..]) else More(body + buffer[..take])
  }

  function LengthFeed(length: nat, body: Bytes, pieces: seq<Bytes>): LengthProgress
    requires |body| <= length
    decreases |pieces|
  {
    if pieces == [] then More(body)
    else
      match LengthRun(length, body, pieces[0])
      case More(next) => LengthFeed(length, next, pieces[1..])
      case Whole(whole, rest) => Whole(whole, rest + Concat(pieces[1..]))
  }

  /** However the input is cut, the body is its first `length` octets, and the rest is kept. */
  lemma {:induction false} LengthFeedSplits(length: nat, body: Bytes, pieces: seq<Bytes>)
    requires |body| <= length && (pieces == [] ==> |body| < length)
    ensures var all := body + Concat(pieces);
            LengthFeed(length, body, pieces)
                == if |all| < length then More(all) else Whole(all[..length], all[length..])
    decreases |pieces|
  {
    var all := body + Concat(pieces);
    if pieces == [] {
      assert all == body;
    } else {
      var take := if length - |body| < |pieces[0]| then length - |body| else |pieces[0]|;
      var next := body + pieces[0][..take];
      assert all == body + pieces[0] + Concat(pieces[1..]);
      if |next| == length {
        assert all[..length] == next && all[length..] == pieces[0][take..] + Concat(pieces[1..]);
      } else {
        assert pieces[0][..take] == pieces[0];
        LengthFeedSplits(length, next, pieces[1..]);
      }
    }
  }

  // ----- the loops

  datatype Event = Waiting | Done(stored: StoredBody) | Rejected(status: nat)

  /** The connection while it reads a body: the `Http1BodyStreamState` and the buffer. */
  class BodyReading {
    const accumulator: RequestBodyAccumulator
    const contentLength: nat
    const maxBodyBytes: nat
    var chunkedPhase: Phase
    var lineBuffer: Bytes
    var chunkRemaining: nat
    var crlfSeen: nat
    var received: nat
    var requestBuffer: Bytes

    predicate Valid()
      reads this, accumulator
    {
      accumulator.Valid() && Sound(State())
    }

    function State(): Stream
      reads this, accumulator
    {
      Stream(chunkedPhase, lineBuffer, chunkRemaining, crlfSeen, accumulator.Contents())
    }

    /** `start_http1_body_stream`: what follows the header is already in the buffer. */
    constructor (buffered: Bytes, headerBytes: nat, contentLength: nat, maxRequestBytes: nat)
      requires headerBytes <= |buffered|
      ensures Valid() && fresh(accumulator) && State() == START && received == 0
      ensures requestBuffer == buffered[headerBytes..]
      ensures this.contentLength == contentLength
      ensures maxBodyBytes == if maxRequestBytes > headerBytes then maxRequestBytes - headerBytes else 0
    {
      accumulator := new RequestBodyAccumulator(16 * 1024);
      this.contentLength := contentLength;
      maxBodyBytes := if maxRequestBytes > headerBytes then maxRequestBytes - headerBytes else 0;
      chunkedPhase, lineBuffer, chunkRemaining, crlfSeen, received := SizeLine, [], 0, 0, 0;
      requestBuffer := buffered[headerBytes..];
    }

    /** What a loop over the buffer has come to. */
    predicate Matches(event: Event, progress: Progress)
      reads this, accumulator
    {
      match event
      case Waiting => requestBuffer == [] && Valid() && progress == Going(State(), [])
      case Done(stored) => stored.Valid() && progress == Finished(stored.Octets(), requestBuffer)
      case Rejected(status) => requestBuffer == [] && progress == Failed(status)
    }

    /** `process_chunked_http1_body_stream`. */
    method ProcessChunked() returns (event: Event)
      requires Valid()
      modifies this, accumulator
      ensures Matches(event, old(Run(State(), requestBuffer, maxBodyBytes)))
    {
      hide SizeOn, LineTurn, DataTurn, CrlfTurn;
      while requestBuffer != []
        invariant Valid()
        invariant Run(State(), requestBuffer, maxBodyBytes) == old(Run(State(), requestBuffer, maxBodyBytes))
        decreases |requestBuffer|
      {
        RunUnfolds(State(), requestBuffer, maxBodyBytes);
        var refused: Option<nat>, finished := None, false;
        if chunkedPhase == SizeLine || chunkedPhase == TrailerLine {
          refused, finished := TakeLine();
        } else if chunkedPhase == Data {
          refused := TakeData();
        } else {
          refused := TakeCrlf();
        }
        if refused.Some? {
          requestBuffer := [];
          return Rejected(refused.value);
        }
        if finished {
          var stored := accumulator.Finish();
          return Done(stored);
        }
      }
      event := Waiting;
    }

    /** The three kinds of turn: a refusal, the end of the body, or a new state. */
    predicate Turned(refused: Option<nat>, finished: bool, progress: Progress)
      reads this, accumulator
    {
      && accumulator.Valid()
      && progress == if refused.Some? then Failed(refused.value)
                     else if finished then Finished(accumulator.Contents(), requestBuffer)
                     else Going(State(), requestBuffer)
    }

    method TakeLine() returns (refused: Option<nat>, finished: bool)
      requires Valid() && requestBuffer != [] && (chunkedPhase == SizeLine || chunkedPhase == TrailerLine)
      modifies this
      ensures Turned(refused, finished, old(LineTurn(State(), requestBuffer)))
    {
      hide SizeOn, Find;
      refused, finished := None, false;
      var lineEnd := Find(requestBuffer, LF);
      if lineEnd.None? {
        lineBuffer := lineBuffer + requestBuffer;
        requestBuffer := [];
        if |lineBuffer| > MAX_LINE {
          refused := Some(400);
        }
        return;
      }
      lineBuffer := lineBuffer + requestBuffer[..lineEnd.value + 1];
      requestBuffer := requestBuffer[lineEnd.value + 1..];
      if |lineBuffer| < 2 || lineBuffer[|lineBuffer| - 2] != CR {
        refused := Some(400);
        return;
      }
      var line := lineBuffer[..|lineBuffer| - 2];
      lineBuffer := [];
      refused, finished := UseLine(line);
    }

    /** What a complete line is for. */
    method UseLine(line: Bytes) returns (refused: Option<nat>, finished: bool)
      requires accumulator.Valid() && lineBuffer == [] && (chunkedPhase == SizeLine || chunkedPhase == TrailerLine)
      modifies this
      ensures Turned(refused, finished, old(OnLine(State(), line, requestBuffer)))
    {
      hide SizeOn;
      refused, finished := None, false;
      if chunkedPhase == TrailerLine {
        if line == [] {
          finished := true;
        } else if |line| > MAX_LINE {
          refused := Some(400);
        }
        return;
      }
      var chunkSize := ReadSize(line);
      if chunkSize.None? {
        refused := Some(400);
        return;
      }
      if chunkSize.value == 0 {
        chunkedPhase := TrailerLine;
        return;
      }
      chunkRemaining := chunkSize.value;
      chunkedPhase := Data;
    }

    method TakeData() returns (refused: Option<nat>)
      requires Valid() && requestBuffer != [] && chunkedPhase == Data
      modifies this, accumulator
      ensures Turned(refused, false, old(DataTurn(State(), requestBuffer, maxBodyBytes)))
    {
      var take := if chunkRemaining < |requestBuffer| then chunkRemaining else |requestBuffer|;
      if accumulator.size + take > maxBodyBytes {
        return Some(413);
      }
      accumulator.Append(requestBuffer[..take]);
      requestBuffer := requestBuffer[take..];
      chunkRemaining := chunkRemaining - take;
      if chunkRemaining == 0 {
        chunkedPhase := DataCrlf;
        crlfSeen := 0;
      }
      refused := None;
    }

    method TakeCrlf() returns (refused: Option<nat>)
      requires Valid() && requestBuffer != [] && chunkedPhase == DataCrlf
      modifies this
      ensures Turned(refused, false, old(CrlfTurn(State(), requestBuffer)))
    {
      var expected := if crlfSeen == 0 then CR else LF;
      if requestBuffer[0] != expected {
        return Some(400);
      }
      requestBuffer := requestBuffer[1..];
      crlfSeen := crlfSeen + 1;
      if crlfSeen == 2 {
        chunkedPhase := SizeLine;
      }
      refused := None;
    }

    /** `process_content_length_http1_body_stream`. */
    method ProcessLength() returns (event: Event)
      requires Valid() && received == |accumulator.Contents()| <= contentLength
      modifies this, accumulator
      ensures match event
              case Waiting =>
                && Valid() && requestBuffer == [] && received == |accumulator.Contents()| <= contentLength
                && old(LengthRun(contentLength, accumulator.Contents(), requestBuffer)) == More(accumulator.Contents())
              case Done(stored) =>
                && stored.Valid()
                && old(LengthRun(contentLength, accumulator.Contents(), requestBuffer))
                    == Whole(stored.Octets(), requestBuffer)
              case Rejected(_) => false
    {
      ghost var before, input := accumulator.Contents(), requestBuffer;
      ghost var done := 0;
      assert before + input[..0] == before;
      while requestBuffer != [] && received < contentLength
        invariant Valid() && received == |accumulator.Contents()| <= contentLength
        invariant done <= |input| && requestBuffer == input[done..]
        invariant accumulator.Contents() == before + input[..done]
        decreases |requestBuffer|
      {
        var take := if contentLength - received < |requestBuffer| then contentLength - received else |requestBuffer|;
        assert input[..done + take] == input[..done] + input[done..][..take];
        accumulator.Append(requestBuffer[..take]);
        requestBuffer := requestBuffer[take..];
        received := received + take;
        done := done + take;
      }
      if received == contentLength {
        var stored := accumulator.Finish();
        return Done(stored);
      }
      assert input[..done] == input;
      event := Waiting;
    }
  }

  lemma RunUnfolds(st: Stream, buffer: Bytes, maxBody: nat)
    requires Sound(st) && buffer != []
    ensures var next := Turn(st, buffer, maxBody);
      && (next.Going? ==>
          Sound(next.stream) && |next.buffer| < |buffer|
              && Run(st, buffer, maxBody) == Run(next.stream, next.buffer, maxBody))
      && (!next.Going? ==> Run(st, buffer, maxBody) == next)
  {
    hide Turn;
    if Turn(st, buffer, maxBody).Going? {
      TurnIsSound(st, buffer, maxBody);
    }
  }

  /** A whole body, read after read. */
  method ReadChunkedBody(buffered: Bytes, headerBytes: nat, maxRequestBytes: nat, later: seq<Bytes>)
    returns (event: Event, rest: Bytes)
    requires headerBytes <= |buffered|
    ensures var maxBody := if maxRequestBytes > headerBytes then maxRequestBytes - headerBytes else 0;
      var end := Feed(START, [buffered[headerBytes..]] + later, maxBody);
      match event
      case Waiting => end.Going?
      case Done(stored) => stored.Valid() && end == Finished(stored.Octets(), rest)
      case Rejected(status) => end == Failed(status)
  {
    hide Run, Sound;
    var reading := new BodyReading(buffered, headerBytes, 0, maxRequestBytes);
    ghost var all := [buffered[headerBytes..]] + later;
    assert all[1..] == later;
    var next := 0;
    rest := [];
    event := Waiting;
    while true
      invariant next <= |later| && reading.Valid()
      invariant fresh(reading) && fresh(reading.accumulator)
      invariant Feed(START, all, reading.maxBodyBytes)
          == Feed(reading.State(), [reading.requestBuffer] + later[next..], reading.maxBodyBytes)
      decreases |later| - next
    {
      ghost var left := [reading.requestBuffer] + later[next..];
      assert left[1..] == later[next..];
      event := reading.ProcessChunked();
      if event.Done? {
        rest := reading.requestBuffer + Concat(later[next..]);
        return;
      }
      if event.Rejected? || next == |later| {
        return;
      }
      assert later[next..] == [later[next]] + later[next + 1..];
      reading.requestBuffer := reading.requestBuffer + later[next];
      assert reading.requestBuffer == later[next];
      next := next + 1;
    }
  }

  /** The same for a body with a Content-Length. */
  method ReadPlainBody(buffered: Bytes, headerBytes: nat, contentLength: nat, maxRequestBytes: nat, later: seq<Bytes>)
    returns (event: Event, rest: Bytes)
    requires headerBytes <= |buffered|
    ensures var end := LengthFeed(contentLength, [], [buffered[headerBytes..]] + later);
      match event
      case Waiting => end.More?
      case Done(stored) => stored.Valid() && end == Whole(stored.Octets(), rest)
      case Rejected(_) => false
  {
    hide Sound, LengthRun;
    var reading := new BodyReading(buffered, headerBytes, contentLength, maxRequestBytes);
    ghost var all := [buffered[headerBytes..]] + later;
    assert all[1..] == later;
    var next := 0;
    rest := [];
    event := Waiting;
    while true
      invariant next <= |later| && reading.Valid() && reading.contentLength == contentLength
      invariant reading.received == |reading.accumulator.Contents()| <= contentLength
      invariant fresh(reading) && fresh(reading.accumulator)
      invariant LengthFeed(contentLength, [], all)
                == LengthFeed(contentLength, reading.accumulator.Contents(), [reading.requestBuffer] + later[next..])
      decreases |later| - next
    {
      ghost var left := [reading.requestBuffer] + later[next..];
      assert left[1..] == later[next..];
      event := reading.ProcessLength();
      if event.Done? {
        rest := reading.requestBuffer + Concat(later[next..]);
        return;
      }
      if next == |later| {
        return;
      }
      assert later[next..] == [later[next]] + later[next + 1..];
      reading.requestBuffer := reading.requestBuffer + later[next];
      assert reading.requestBuffer == later[next];
      next := next + 1;
    }
  }
}
