/** A connection that is kept alive: one request after another is read, each from what the one
    before it has left in the buffer and from the reads that follow. */
module Http1Conversation {
  import opened Octets
  import opened RequestText
  import opened ChunkedBody
  import opened ChunkedDecoding
  import opened ChunkedStream
  import opened BodyStream
  import opened Http1Framing
  import opened Http1Arrival

  // ----- what a request leaves

  /** The rest of the buffer behind a streamed body, and the reads that are still to come. */
  function FeedLeft(st: Stream, pieces: seq<Bytes>, maxBody: nat): seq<Bytes>
    requires Sound(st)
    decreases |pieces|
  {
    if pieces == [] then []
    else
      match Run(st, pieces[0], maxBody)
      case Going(next, _) => FeedLeft(next, pieces[1..], maxBody)
      case Finished(_, rest) => [rest] + pieces[1..]
      case Failed(_) => []
  }

  function LengthLeft(length: nat, body: Bytes, pieces: seq<Bytes>): seq<Bytes>
    requires |body| <= length
    decreases |pieces|
  {
    if pieces == [] then []
    else
      match LengthRun(length, body, pieces[0])
      case More(next) => LengthLeft(length, next, pieces[1..])
      case Whole(_, rest) => [rest] + pieces[1..]
  }

  /** The same for a request, read as by `Arrive`. */
  function Left(buffer: Bytes, pieces: seq<Bytes>, limit: nat): seq<Bytes>
    decreases |pieces|
  {
    if pieces == [] then []
    else
      var filled, later := buffer + pieces[0], pieces[1..];
      match NextFrame(filled, limit)
      case NeedMore => Left(filled, later, limit)
      case Framed(_, _, _, consumed, _) => [filled[consumed..]] + later
      case HeaderComplete(_, chunked, length, start, _) =>
        if chunked then FeedLeft(START, [filled[start..]] + later, limit - start)
        else LengthLeft(if length.Some? then length.value else 0, [], [filled[start..]] + later)
      case _ => []
  }

  lemma ConcatFirst(first: Bytes, later: seq<Bytes>)
    ensures Concat([first] + later) == first + Concat(later)
  {
    assert ([first] + later)[1..] == later;
  }

  lemma {:induction false} FeedLeftIsRest(st: Stream, pieces: seq<Bytes>, maxBody: nat)
    requires Sound(st) && Feed(st, pieces, maxBody).Finished?
    ensures Concat(FeedLeft(st, pieces, maxBody)) == Feed(st, pieces, maxBody).rest
    decreases |pieces|
  {
    hide Run;
    match Run(st, pieces[0], maxBody)
    case Going(next, _) => FeedLeftIsRest(next, pieces[1..], maxBody);
    case Finished(_, rest) => ConcatFirst(rest, pieces[1..]);
    case Failed(_) =>
  }

  lemma {:induction false} LengthLeftIsRest(length: nat, body: Bytes, pieces: seq<Bytes>)
    requires |body| <= length && LengthFeed(length, body, pieces).Whole?
    ensures Concat(LengthLeft(length, body, pieces)) == LengthFeed(length, body, pieces).rest
    decreases |pieces|
  {
    match LengthRun(length, body, pieces[0])
    case More(next) => LengthLeftIsRest(length, next, pieces[1..]);
    case Whole(_, rest) => ConcatFirst(rest, pieces[1..]);
  }

  lemma HeadIsSome(filled: Bytes, limit: nat)
    requires NextFrame(filled, limit).HeaderComplete?
    ensures 4 <= NextFrame(filled, limit).consumed <= |filled|
  {
    hide NextFrame, FindBlankLine;
    HeadOfFrame(filled, limit);
  }

  /** What is left is what is behind the request, and less than there was. */
  lemma {:induction false} LeftIsRest(buffer: Bytes, pieces: seq<Bytes>, limit: nat)
    requires Arrive(buffer, pieces, limit).Served?
    ensures Concat(Left(buffer, pieces, limit)) == Arrive(buffer, pieces, limit).rest
    ensures |Arrive(buffer, pieces, limit).rest| < |buffer + Concat(pieces)|
    decreases |pieces|
  {
    hide NextFrame, ParseRequest, Feed, LengthFeed, FeedLeft, LengthLeft;
    var filled, later := buffer + pieces[0], pieces[1..];
    match NextFrame(filled, limit)
    case NeedMore => LeftIsRest(filled, later, limit);
    case Framed(_, _, _, consumed, _) =>
      FrameFits(filled, limit);
      ConcatFirst(filled[consumed..], later);
    case HeaderComplete(_, chunked, length, start, _) =>
      HeadIsSome(filled, limit);
      var rest := [filled[start..]] + later;
      ConcatFirst(filled[start..], later);
      if chunked {
        FeedLeftIsRest(START, rest, limit - start);
        StreamingRefinesBatch(rest, limit - start);
      } else {
        LengthLeftIsRest(if length.Some? then length.value else 0, [], rest);
        LengthFeedSplits(if length.Some? then length.value else 0, [], rest);
      }
    case _ =>
  }

  /** The requests that a connection serves as the reads arrive, until it waits, refuses or fails. */
  function Converse(pieces: seq<Bytes>, limit: nat): seq<Request>
    decreases |Concat(pieces)|
  {
    match Arrive([], pieces, limit)
    case Served(request, _) =>
      LeftIsRest([], pieces, limit);
      [request] + Converse(Left([], pieces, limit), limit)
    case _ => []
  }

  // ----- clean messages

  /** Exactly one complete message, whose chunked lines, if any, are clean. */
  ghost predicate IsCleanMessage(m: Bytes, limit: nat) {
    CleanMessage(m, limit) && NextFrame(m, limit).consumed == |m|
  }

  lemma CleanWithMore(m: Bytes, behind: Bytes, limit: nat)
    requires CleanMessage(m, limit) && |m + behind| <= MAX_STRING
    ensures CleanMessage(m + behind, limit) && NextFrame(m + behind, limit) == NextFrame(m, limit)
  {
    hide NextFrame, ChunkedHead, Chunks, Wrapped;
    CleanIsUnwrapped(m, limit);
    FramingStable(m, behind, limit);
    HeadOfFrame(m, limit);
    HeadOfFrame(m + behind, limit);
    if ChunkedHead(m, limit).Some? {
      var (request, start) := ChunkedHead(m, limit).value;
      ChunkedHeadKept(m, behind, limit);
      ChunksStable(m[start..], behind, true);
      assert (m + behind)[start..] == m[start..] + behind;
    }
  }

  /** The request that a message is. */
  function RequestOf(m: Bytes, limit: nat): Request
    requires NextFrame(m, limit).Framed?
  {
    FramedIsRead(m, limit);
    ParseRequest(NextFrame(m, limit).rawRequest).value
  }

  lemma FirstIsServed(m: Bytes, behind: Bytes, pieces: seq<Bytes>, limit: nat)
    requires IsCleanMessage(m, limit) && Concat(pieces) == m + behind && |m + behind| <= MAX_STRING
    ensures NextFrame(m, limit).Framed? && Arrive([], pieces, limit) == Served(RequestOf(m, limit), behind)
  {
    hide NextFrame, ParseRequest, Arrive, Reads, Wrapped, ChunkedHead, Chunks;
    var all := m + behind;
    CleanWithMore(m, behind, limit);
    CleanIsUnwrapped(all, limit);
    hide CleanMessage;
    CleanIsFramed(m, limit);
    CleanPieces(all, pieces, limit);
    assert [] + Concat(pieces) == all && all[|m|..] == behind;
    ServedIsRead([], pieces, limit);
    FramedIsRead(all, limit);
    var served := Arrive([], pieces, limit);
    ReadsOnlyOne(all, limit, served.request, RequestOf(m, limit), served.rest, behind);
  }

  function RequestsOf(messages: seq<Bytes>, limit: nat): seq<Request>
    requires forall i :: 0 <= i < |messages| ==> NextFrame(messages[i], limit).Framed?
  {
    seq(|messages|, i requires 0 <= i < |messages| => RequestOf(messages[i], limit))
  }

  lemma RequestsOfNone(limit: nat)
    ensures RequestsOf([], limit) == []
  {
  }

  lemma RequestsOfMore(messages: seq<Bytes>, limit: nat)
    requires messages != [] && forall i :: 0 <= i < |messages| ==> NextFrame(messages[i], limit).Framed?
    ensures forall i :: 0 <= i < |messages[1..]| ==> NextFrame(messages[1..][i], limit).Framed?
    ensures RequestsOf(messages, limit) == [RequestOf(messages[0], limit)] + RequestsOf(messages[1..], limit)
  {
    hide NextFrame, RequestOf;
    assert forall i :: 0 <= i < |messages[1..]| ==> messages[1..][i] == messages[i + 1];
  }

  lemma CleanAreFramed(messages: seq<Bytes>, limit: nat)
    requires forall i :: 0 <= i < |messages| ==> IsCleanMessage(messages[i], limit)
    ensures forall i :: 0 <= i < |messages| ==> NextFrame(messages[i], limit).Framed?
  {
    hide NextFrame;
  }

  /** For every list of clean messages, whatever follows, and every cutting: the connection serves
      exactly these messages, in order, and goes on with what follows; whichever decoder reads each
      body. */
  lemma {:induction false} MessagesAreServed(messages: seq<Bytes>, tail: Bytes, pieces: seq<Bytes>, limit: nat)
    requires forall i :: 0 <= i < |messages| ==> IsCleanMessage(messages[i], limit)
    requires Concat(pieces) == Concat(messages) + tail && |Concat(pieces)| <= MAX_STRING
    ensures forall i :: 0 <= i < |messages| ==> NextFrame(messages[i], limit).Framed?
    ensures exists left ::
              Concat(left) == tail && Converse(pieces, limit) == RequestsOf(messages, limit) + Converse(left, limit)
    decreases |messages|
  {
    hide NextFrame, Arrive, Left, IsCleanMessage, RequestOf, RequestsOf;
    CleanAreFramed(messages, limit);
    if messages == [] {
      assert Concat(pieces) == tail;
      RequestsOfNone(limit);
      assert [] + Converse(pieces, limit) == Converse(pieces, limit);
    } else {
      var m, behind := messages[0], Concat(messages[1..]) + tail;
      assert Concat(pieces) == m + behind;
      FirstIsServed(m, behind, pieces, limit);
      LeftIsRest([], pieces, limit);
      var next := Left([], pieces, limit);
      MessagesAreServed(messages[1..], tail, next, limit);
      var left :|
        Concat(left) == tail && Converse(next, limit) == RequestsOf(messages[1..], limit) + Converse(left, limit);
      OneMoreServed(messages, Converse(left, limit), limit);
    }
  }

  lemma OneMoreServed(messages: seq<Bytes>, served: seq<Request>, limit: nat)
    requires messages != [] && forall i :: 0 <= i < |messages| ==> NextFrame(messages[i], limit).Framed?
    ensures forall i :: 0 <= i < |messages[1..]| ==> NextFrame(messages[1..][i], limit).Framed?
    ensures [RequestOf(messages[0], limit)] + (RequestsOf(messages[1..], limit) + served)
            == RequestsOf(messages, limit) + served
  {
    hide NextFrame, RequestOf, RequestsOf;
    RequestsOfMore(messages, limit);
  }

  // ----- any octets

  /** No sum wraps in what a request of the conversation is read from. */
  predicate Unspoilt(pieces: seq<Bytes>, limit: nat)
    decreases |Concat(pieces)|
  {
    && !Wrapped(Concat(pieces))
    && match Arrive([], pieces, limit)
       case Served(_, _) =>
         LeftIsRest([], pieces, limit);
         Unspoilt(Left([], pieces, limit), limit)
       case _ => true
  }

  /** Whatever octets arrive: two cuttings of them make the connection serve the same requests, as
      far as both serve any. One may stop earlier, where the timing matters. */
  lemma {:induction false} ConversationsAgree(pieces1: seq<Bytes>, pieces2: seq<Bytes>, limit: nat)
    requires Concat(pieces1) == Concat(pieces2) && |Concat(pieces1)| <= MAX_STRING && Unspoilt(pieces1, limit)
    ensures Converse(pieces1, limit) <= Converse(pieces2, limit) || Converse(pieces2, limit) <= Converse(pieces1, limit)
    decreases |Concat(pieces1)|
  {
    hide Arrive, Left, Wrapped;
    if Arrive([], pieces1, limit).Served? && Arrive([], pieces2, limit).Served? {
      ServedAlike(pieces1, pieces2, limit);
      LeftIsRest([], pieces1, limit);
      LeftIsRest([], pieces2, limit);
      ConversationsAgree(Left([], pieces1, limit), Left([], pieces2, limit), limit);
    }
  }
}
