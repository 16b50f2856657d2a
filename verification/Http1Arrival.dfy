/** A connection that reads one HTTP/1.1 request: reads of any size arrive one after the other,
    and what has arrived with the header section decides which decoder reads the body. For exactly
    which octets a request is served at every timing, at some timing, always the same, and as the
    octets mean it, is said here. */
module Http1Arrival {
  import opened Wrappers
  import opened Octets
  import opened RequestText
  import opened ChunkedBody
  import opened ChunkedDecoding
  import opened ChunkedStream
  import opened BodyStream
  import opened Http1Framing
  import opened Http1Agreement
  import opened Http1Timing

  // ----- one request, read by read

  /** Waiting, a request with the octets behind it, a refusal, or a framer that does not return. */
  datatype Verdict = Awaiting | Served(request: Request, rest: Bytes) | TurnedAway(status: nat) | Lost

  /** What comes of a body stream. */
  function Streamed(request: Request, end: Progress): Verdict {
    match end
    case Going(_, _) => Awaiting
    case Finished(body, rest) => Served(request.(body := body), rest)
    case Failed(status) => TurnedAway(status)
  }

  function StreamedPlain(request: Request, end: LengthProgress): Verdict {
    match end
    case More(_) => Awaiting
    case Whole(body, rest) => Served(request.(body := body), rest)
  }

  /** Reads arrive one after the other. Each is put to the buffer, which is framed again, until
      the request is there, or its header section is and its body is streamed. */
  function Arrive(buffer: Bytes, pieces: seq<Bytes>, limit: nat): Verdict
    decreases |pieces|
  {
    if pieces == [] then Awaiting
    else
      var filled, later := buffer + pieces[0], pieces[1..];
      match NextFrame(filled, limit)
      case NeedMore => Arrive(filled, later, limit)
      case Refused(status, _, _) => TurnedAway(status)
      case FramerThrows => Lost
      case FramerHangs => Lost
      case Framed(_, _, _, consumed, raw) =>
        (match ParseRequest(raw)
         case Ok(request) => Served(request, filled[consumed..] + Concat(later))
         case Err(_) => TurnedAway(400))
      case HeaderComplete(request, chunked, length, start, _) =>
        if chunked then Streamed(request, Feed(START, [filled[start..]] + later, limit - start))
        else StreamedPlain(request, LengthFeed(if length.Some? then length.value else 0, [], [filled[start..]] + later))
  }

  /** `append_request_bytes` for one request, with framing and body streaming. */
  method ServeRequest(pieces: seq<Bytes>, limit: nat) returns (verdict: Verdict)
    ensures verdict == Arrive([], pieces, limit)
  {
    hide NextFrame, ParseRequest, Feed, LengthFeed;
    var buffer: Bytes, next := [], 0;
    assert pieces[0..] == pieces;
    while next < |pieces|
      invariant next <= |pieces|
      invariant Arrive([], pieces, limit) == Arrive(buffer, pieces[next..], limit)
    {
      assert pieces[next..][1..] == pieces[next + 1..];
      buffer := buffer + pieces[next];
      next := next + 1;
      var frame := NextHttp1RequestFrame(buffer, limit);
      match frame
      case NeedMore =>
      case Refused(status, _, _) => return TurnedAway(status);
      case FramerThrows => return Lost;
      case FramerHangs => return Lost;
      case Framed(_, _, _, consumed, raw) =>
        var request := ReadRequest(raw);
        if request.Err? {
          return TurnedAway(400);
        }
        return Served(request.value, buffer[consumed..] + Concat(pieces[next..]));
      case HeaderComplete(request, chunked, length, start, _) =>
        var event, rest;
        if chunked {
          event, rest := ReadChunkedBody(buffer, start, limit, pieces[next..]);
        } else {
          event, rest := ReadPlainBody(buffer, start, if length.Some? then length.value else 0, limit, pieces[next..]);
        }
        match event
        case Waiting => return Awaiting;
        case Done(stored) => return Served(request.(body := stored.Octets()), rest);
        case Rejected(status) => return TurnedAway(status);
    }
    verdict := Awaiting;
  }

  /** A header section that announces a chunked body: the request so far, and where the body
      starts. */
  function ChunkedHead(all: Bytes, limit: nat): Option<(Request, nat)> {
    match FindBlankLine(all)
    case None => None
    case Some(i) =>
      var start := i + 4;
      if start > limit || Analyze(all[..start]).None? || !Analyze(all[..start]).value.chunked then None
      else
        match ParseRequest(all[..start])
        case Ok(request) => Some((request, start))
        case Err(_) => None
  }

  /** The request in the octets, and what is behind it, by the decoder for a whole buffer. */
  ghost predicate Reads(all: Bytes, limit: nat, request: Request, rest: Bytes) {
    match ChunkedHead(all, limit)
    case Some((head, start)) =>
      start <= |all|
      && (exists body :: Chunks(all[start..], false) == Complete(body, rest) && request == head.(body := body))
    case None =>
      var frame := NextFrame(all, limit);
      frame.Framed? && ParseRequest(frame.rawRequest) == Ok(request) && rest == all[frame.consumed..]
  }

  lemma ReadsOnlyOne(all: Bytes, limit: nat, a: Request, b: Request, rest1: Bytes, rest2: Bytes)
    requires Reads(all, limit, a, rest1) && Reads(all, limit, b, rest2)
    ensures a == b && rest1 == rest2
  {
    hide ChunkedHead, NextFrame, ParseRequest, Chunks;
  }

  lemma HeadOfFrame(all: Bytes, limit: nat)
    requires NextFrame(all, limit).Framed? || NextFrame(all, limit).HeaderComplete?
    ensures var frame := NextFrame(all, limit);
      && FindBlankLine(all).Some?
      && ChunkedHead(all, limit)
          == (if frame.chunked then Some((frame.request, FindBlankLine(all).value + 4)) else None)
      && (frame.HeaderComplete? ==> frame.consumed == FindBlankLine(all).value + 4)
  {
    hide Analyze, ParseRequest, FindBlankLine, Decoding;
  }

  lemma HeadAnnounces(all: Bytes, limit: nat)
    requires ChunkedHead(all, limit).Some?
    ensures var start := ChunkedHead(all, limit).value.1; start <= |all| && Wrapped(all) == Wraps(all[start..])
  {
    hide Analyze, ParseRequest, FindBlankLine, WrapsFrom;
  }

  lemma HeadOfChunked(all: Bytes, limit: nat, request: Request, start: nat)
    requires ChunkedHead(all, limit) == Some((request, start))
    ensures 4 <= start <= |all| && start <= limit && FindBlankLine(all) == Some(start - 4)
    ensures NextFrame(all, limit) == ChunkedFrame(all, start, request, limit)
  {
    hide Analyze, ParseRequest, FindBlankLine, ChunkedFrame;
  }

  /** Octets with a sum that wraps have no request in them yet. */
  lemma WrappedHasNone(all: Bytes, limit: nat, request: Request, rest: Bytes)
    requires Wrapped(all) && |all| <= MAX_STRING
    ensures !Reads(all, limit, request, rest)
  {
    hide NextFrame, ParseRequest, Chunks, ChunkedHead, Wrapped, WrapsFrom;
    if ChunkedHead(all, limit).Some? {
      HeadAnnounces(all, limit);
      var start := ChunkedHead(all, limit).value.1;
      if !Chunks(all[start..], false).Incomplete? {
        Unwrapped(all[start..]);
      }
    } else if NextFrame(all, limit).Framed? {
      HeadOfFrame(all, limit);
      PlainIsUnwrapped(all, limit);
    }
  }

  lemma PlainIsUnwrapped(all: Bytes, limit: nat)
    requires NextFrame(all, limit).Framed? && !NextFrame(all, limit).chunked
    ensures !Wrapped(all)
  {
    hide NextFrame, ParseRequest, Analyze, Wrapped, FindBlankLine, BodyFrame, BodyIn;
    var start, request, analysis := FrameParts(all, limit);
    FrameOfBody(all, start, request, analysis, limit);
    WrappedFrame(all, start, analysis);
  }

  /** A framed request is the one in the octets if and only if no sum wraps. */
  lemma FramedIsRead(all: Bytes, limit: nat)
    requires NextFrame(all, limit).Framed?
    ensures var frame := NextFrame(all, limit);
      && ParseRequest(frame.rawRequest).Ok?
      && (|all| <= MAX_STRING ==>
            (Reads(all, limit, ParseRequest(frame.rawRequest).value, all[frame.consumed..]) <==> !Wrapped(all)))
  {
    hide NextFrame, ParseRequest, Chunks, ChunkedHead, FindBlankLine, Announces, Wrapped, Decoding;
    FramerAndParserAgree(all, limit);
    HeadOfFrame(all, limit);
    if !NextFrame(all, limit).chunked {
      PlainIsUnwrapped(all, limit);
    }
  }

  lemma ChunkedHeadKept(first: Bytes, more: Bytes, limit: nat)
    requires ChunkedHead(first, limit).Some?
    ensures ChunkedHead(first + more, limit) == ChunkedHead(first, limit)
  {
    hide Analyze, ParseRequest, FindBlankLine;
    FindBlankLineStable(first, more);
    var start: nat := FindBlankLine(first).value + 4;
    assert (first + more)[..start] == first[..start];
  }

  lemma StreamedIsRead(first: Bytes, later: seq<Bytes>, limit: nat, early: Frame)
    requires early == NextFrame(first, limit) && early.HeaderComplete? && early.chunked
    requires Feed(START, [first[early.consumed..]] + later, limit - early.consumed).Finished?
    requires |first + Concat(later)| <= MAX_STRING
    ensures var end := Feed(START, [first[early.consumed..]] + later, limit - early.consumed);
      && Reads(first + Concat(later), limit, early.request.(body := end.body), end.rest)
      && !Wrapped(first + Concat(later))
  {
    hide NextFrame, Feed, Chunks, ChunkedHead, FindBlankLine, Wrapped, WrapsFrom, Decoding;
    var pieces := [first[early.consumed..]] + later;
    assert pieces[1..] == later;
    HeadOfFrame(first, limit);
    ChunkedHeadKept(first, Concat(later), limit);
    SameHead(first, Concat(later), limit);
    StreamingRefinesBatch(pieces, limit - early.consumed);
    HeadAnnounces(first + Concat(later), limit);
    Unwrapped(Concat(pieces));
  }

  lemma StreamedPlainIsRead(first: Bytes, later: seq<Bytes>, limit: nat, early: Frame, length: nat)
    requires early == NextFrame(first, limit) && early.HeaderComplete? && !early.chunked
        && early.contentLength == Some(length)
    requires LengthFeed(length, [], [first[early.consumed..]] + later).Whole?
    requires |first + Concat(later)| <= MAX_STRING
    ensures var end := LengthFeed(length, [], [first[early.consumed..]] + later);
      && NextFrame(first + Concat(later), limit).Framed?
      && Reads(first + Concat(later), limit, early.request.(body := end.body), end.rest)
      && !Wrapped(first + Concat(later))
  {
    hide NextFrame, LengthFeed, Chunks, ChunkedHead, ParseRequest, FindBlankLine, Announces, Wrapped, Decoding;
    var all, start := first + Concat(later), early.consumed;
    LatePlainBody(first, later, limit, early, length);
    PlainIsUnwrapped(all, limit);
    FramedIsRead(all, limit);
    FramerAndParserAgree(all, limit);
    HeadOfFrame(first, limit);
    FindBlankLineStable(first, Concat(later));
    var end := LengthFeed(length, [], [first[start..]] + later);
    assert all[..start] == first[..start];
    SameTail(first[..start], end.body, BodyIn(all, start, NextFrame(all, limit)));
  }

  lemma SameTail(a: Bytes, b: Bytes, c: Bytes)
    requires a + b == a + c
    ensures b == c
  {
    assert (a + b)[|a|..] == b && (a + c)[|a|..] == c;
  }

  /** A request that was framed early. */
  lemma FramedEarlyIsRead(first: Bytes, more: Bytes, limit: nat)
    requires NextFrame(first, limit).Framed? && |first + more| <= MAX_STRING
    ensures NextFrame(first, limit).consumed <= |first| && ParseRequest(NextFrame(first, limit).rawRequest).Ok?
    ensures var frame := NextFrame(first, limit);
            Reads(first + more, limit, ParseRequest(frame.rawRequest).value, first[frame.consumed..] + more)
            <==> !Wrapped(first + more)
  {
    hide NextFrame, ParseRequest, Reads, Wrapped;
    FrameFits(first, limit);
    FramedIsRead(first, limit);
    FramingStable(first, more, limit);
    FramedIsRead(first + more, limit);
    var n: nat := NextFrame(first, limit).consumed;
    assert (first + more)[n..] == first[n..] + more;
    if Wrapped(first) {
      WrappedStays(first, more);
      WrappedHasNone(first + more, limit, ParseRequest(NextFrame(first, limit).rawRequest).value,
                     first[n..] + more);
    } else {
      StaysUnwrapped(first, more, limit);
    }
  }

  /** Whatever is served, at whatever timing, is the request in the octets if and only if no sum
      wraps. */
  lemma {:induction false} ServedIsRead(buffer: Bytes, pieces: seq<Bytes>, limit: nat)
    requires Arrive(buffer, pieces, limit).Served? && |buffer + Concat(pieces)| <= MAX_STRING
    ensures var served, all := Arrive(buffer, pieces, limit), buffer + Concat(pieces);
            Reads(all, limit, served.request, served.rest) <==> !Wrapped(all)
    decreases |pieces|
  {
    hide NextFrame, ParseRequest, Feed, LengthFeed, Reads, Wrapped;
    var filled, later := buffer + pieces[0], pieces[1..];
    assert buffer + Concat(pieces) == filled + Concat(later);
    var frame := NextFrame(filled, limit);
    match frame
    case NeedMore => ServedIsRead(filled, later, limit);
    case Framed(_, _, _, consumed, raw) => FramedEarlyIsRead(filled, Concat(later), limit);
    case HeaderComplete(request, chunked, length, start, _) =>
      if chunked {
        StreamedIsRead(filled, later, limit, frame);
      } else {
        SameHead(filled, [], limit);
        StreamedPlainIsRead(filled, later, limit, frame, length.value);
      }
    case _ =>
  }

  /** Two cuttings of the same octets that are both served get the same request, and the next
      request starts at the same octet, when no sum wraps. */
  lemma ServedAlike(pieces1: seq<Bytes>, pieces2: seq<Bytes>, limit: nat)
    requires Concat(pieces1) == Concat(pieces2) && |Concat(pieces1)| <= MAX_STRING && !Wrapped(Concat(pieces1))
    requires Arrive([], pieces1, limit).Served? && Arrive([], pieces2, limit).Served?
    ensures Arrive([], pieces1, limit) == Arrive([], pieces2, limit)
  {
    hide Arrive, Reads, Wrapped;
    assert [] + Concat(pieces1) == Concat(pieces1);
    ServedIsRead([], pieces1, limit);
    ServedIsRead([], pieces2, limit);
    var a, b := Arrive([], pieces1, limit), Arrive([], pieces2, limit);
    ReadsOnlyOne([] + Concat(pieces1), limit, a.request, b.request, a.rest, b.rest);
  }

  // ----- one read

  /** Neither refused, nor does the framer fail to return. */
  predicate Open(frame: Frame) {
    frame.NeedMore? || frame.HeaderComplete? || frame.Framed?
  }

  /** A read that completes a request. */
  lemma ArriveFramed(buffer: Bytes, pieces: seq<Bytes>, limit: nat)
    requires pieces != [] && NextFrame(buffer + pieces[0], limit).Framed?
    ensures var filled := buffer + pieces[0]; var frame := NextFrame(filled, limit);
      && frame.consumed <= |filled| && ParseRequest(frame.rawRequest).Ok?
      && Arrive(buffer, pieces, limit)
         == Served(ParseRequest(frame.rawRequest).value, filled[frame.consumed..] + Concat(pieces[1..]))
  {
    hide NextFrame, ParseRequest, Reads, Wrapped;
    FramedIsRead(buffer + pieces[0], limit);
  }

  lemma ArriveStreams(buffer: Bytes, pieces: seq<Bytes>, limit: nat)
    requires pieces != [] && NextFrame(buffer + pieces[0], limit).HeaderComplete?
    ensures var filled, later := buffer + pieces[0], pieces[1..];
      var frame := NextFrame(filled, limit);
      var rest := [filled[frame.consumed..]] + later;
      Arrive(buffer, pieces, limit) ==
      if frame.chunked then Streamed(frame.request, Feed(START, rest, limit - frame.consumed))
      else
        StreamedPlain(frame.request,
                      LengthFeed(if frame.contentLength.Some? then frame.contentLength.value else 0, [], rest))
  {
    hide NextFrame, ParseRequest, Feed, LengthFeed;
  }

  lemma ArriveWaits(buffer: Bytes, pieces: seq<Bytes>, limit: nat)
    requires pieces != [] && NextFrame(buffer + pieces[0], limit).NeedMore?
    ensures Arrive(buffer, pieces, limit) == Arrive(buffer + pieces[0], pieces[1..], limit)
  {
    hide NextFrame, ParseRequest, Feed, LengthFeed;
  }

  lemma FramedTogether(all: Bytes, limit: nat)
    requires NextFrame(all, limit).Framed?
    ensures NextFrame(all, limit).consumed <= |all| && ParseRequest(NextFrame(all, limit).rawRequest).Ok?
    ensures var frame := NextFrame(all, limit);
            Arrive([], [all], limit) == Served(ParseRequest(frame.rawRequest).value, all[frame.consumed..])
  {
    hide NextFrame, ParseRequest, Arrive;
    assert [] + all == all && [all][1..] == [];
    ArriveFramed([], [all], limit);
    assert all[NextFrame(all, limit).consumed..] + [] == all[NextFrame(all, limit).consumed..];
  }

  lemma FramedAlone(all: Bytes, suffix: Bytes, limit: nat)
    requires NextFrame(all, limit).Framed?
    ensures NextFrame(all, limit).consumed <= |all| && ParseRequest(NextFrame(all, limit).rawRequest).Ok?
    ensures var frame := NextFrame(all, limit);
            Arrive([], [all, suffix], limit)
            == Served(ParseRequest(frame.rawRequest).value, all[frame.consumed..] + suffix)
  {
    hide NextFrame, ParseRequest, Arrive;
    ConcatOne(suffix);
    assert [] + all == all && [all, suffix][1..] == [suffix];
    ArriveFramed([], [all, suffix], limit);
  }

  // ----- where a sum wraps

  /** A request with a sum that wraps can only have been framed, with the octets that were there. */
  lemma {:induction false} WrappedIsFramed(buffer: Bytes, pieces: seq<Bytes>, limit: nat) returns (n: nat)
    requires Arrive(buffer, pieces, limit).Served? && |buffer + Concat(pieces)| <= MAX_STRING
    requires Wrapped(buffer + Concat(pieces))
    ensures var all := buffer + Concat(pieces);
      && n <= |all| && NextFrame(all[..n], limit).Framed?
      && var frame := NextFrame(all[..n], limit);
         && ParseRequest(frame.rawRequest).Ok? && frame.consumed <= |all|
         && Arrive(buffer, pieces, limit) == Served(ParseRequest(frame.rawRequest).value, all[frame.consumed..])
    decreases |pieces|
  {
    hide NextFrame, ParseRequest, Feed, LengthFeed, Wrapped, Arrive;
    SomethingRead(buffer, pieces, limit);
    var filled, later := buffer + pieces[0], pieces[1..];
    var all := filled + Concat(later);
    assert buffer + Concat(pieces) == all;
    n := |filled|;
    assert all[..n] == filled;
    var frame := NextFrame(filled, limit);
    match frame
    case NeedMore =>
      ArriveWaits(buffer, pieces, limit);
      n := WrappedIsFramed(filled, later, limit);
    case Framed(_, _, _, consumed, _) =>
      ArriveFramed(buffer, pieces, limit);
      assert filled[consumed..] + Concat(later) == all[consumed..];
    case HeaderComplete(_, chunked, length, start, _) =>
      ArriveStreams(buffer, pieces, limit);
      if chunked {
        StreamedIsRead(filled, later, limit, frame);
      } else {
        SameHead(filled, [], limit);
        StreamedPlainIsRead(filled, later, limit, frame, length.value);
      }
    case _ =>
  }

  /** A request is served for a read that leaves the framer open. */
  lemma SomethingRead(buffer: Bytes, pieces: seq<Bytes>, limit: nat)
    requires Arrive(buffer, pieces, limit).Served?
    ensures pieces != [] && Open(NextFrame(buffer + pieces[0], limit))
  {
    hide NextFrame, ParseRequest, Feed, LengthFeed;
  }

  /** The octets without their last one are framed, with a sum that wraps. */
  predicate FramesTooSoon(all: Bytes, limit: nat) {
    Wrapped(all) && all != [] && NextFrame(all[..|all| - 1], limit).Framed?
  }

  lemma FramedLonger(all: Bytes, n: nat, m: nat, limit: nat)
    requires n <= m <= |all| && NextFrame(all[..n], limit).Framed?
    ensures NextFrame(all[..m], limit).Framed?
  {
    hide NextFrame, Wrapped;
    assert all[..n] + all[n..m] == all[..m];
    FramingStable(all[..n], all[n..m], limit);
  }

  lemma WrappedNotTooSoon(all: Bytes, pieces: seq<Bytes>, limit: nat)
    requires Concat(pieces) == all && Arrive([], pieces, limit).Served? && |all| <= MAX_STRING
    requires Wrapped(all) && !FramesTooSoon(all, limit)
    ensures var frame := NextFrame(all, limit);
      && frame.Framed? && ParseRequest(frame.rawRequest).Ok? && frame.consumed <= |all|
      && Arrive([], pieces, limit) == Served(ParseRequest(frame.rawRequest).value, all[frame.consumed..])
  {
    hide NextFrame, ParseRequest, Arrive, Wrapped, Concat;
    assert [] + Concat(pieces) == all;
    var n := WrappedIsFramed([], pieces, limit);
    if n < |all| {
      FramedLonger(all, n, |all| - 1, limit);
    }
    assert n == |all| && all[..n] == all;
  }

  /** More octets in the body make another request. */
  lemma LongerRequest(first: Bytes, more: Bytes, limit: nat)
    requires NextFrame(first, limit).Framed? && NextFrame(first + more, limit).Framed?
    requires |NextFrame(first, limit).rawRequest| < |NextFrame(first + more, limit).rawRequest|
    ensures ParseRequest(NextFrame(first, limit).rawRequest) != ParseRequest(NextFrame(first + more, limit).rawRequest)
  {
    hide NextFrame, ParseRequest, FindBlankLine, Announces, Decoding, Wrapped, Chunks;
    FramerAndParserAgree(first, limit);
    FramerAndParserAgree(first + more, limit);
    HeadOfFrame(first, limit);
    FindBlankLineStable(first, more);
  }

  lemma LastOctetLater(all: Bytes, limit: nat)
    requires FramesTooSoon(all, limit) && |all| <= MAX_STRING
    ensures var n := |all| - 1;
      && Concat([all]) == all && Concat([all[..n], all[n..]]) == all
      && Arrive([], [all], limit).Served? && Arrive([], [all[..n], all[n..]], limit).Served?
      && Arrive([], [all], limit) != Arrive([], [all[..n], all[n..]], limit)
  {
    hide NextFrame, ParseRequest, Wrapped;
    var front, last := all[..|all| - 1], all[|all| - 1..];
    assert front + last == all && [front, last][1..] == [last];
    ConcatOne(all);
    ConcatOne(last);
    if !Wrapped(front) {
      StaysUnwrapped(front, last, limit);
    }
    FramingStable(front, last, limit);
    LongerRequest(front, last, limit);
    hide Arrive;
    FramedAlone(front, last, limit);
    FramedTogether(all, limit);
  }

  /** Whenever they are served, the octets are served alike. */
  ghost predicate AlwaysAlike(all: Bytes, limit: nat) {
    forall pieces1, pieces2 ::
      Concat(pieces1) == all && Concat(pieces2) == all
      && Arrive([], pieces1, limit).Served? && Arrive([], pieces2, limit).Served? ==>
        Arrive([], pieces1, limit) == Arrive([], pieces2, limit)
  }

  /** Two cuttings that are both served get the same request, and the next request starts at the
      same octet, for exactly those octets that do not frame too soon. */
  lemma ServedAlikeExactly(all: Bytes, limit: nat)
    requires |all| <= MAX_STRING
    ensures AlwaysAlike(all, limit) <==> !FramesTooSoon(all, limit)
  {
    hide NextFrame, ParseRequest, Arrive, Wrapped, FramesTooSoon;
    if FramesTooSoon(all, limit) {
      LastOctetLater(all, limit);
      assert !AlwaysAlike(all, limit);
    } else {
      forall pieces1, pieces2 | Concat(pieces1) == all && Concat(pieces2) == all
          && Arrive([], pieces1, limit).Served? && Arrive([], pieces2, limit).Served?
        ensures Arrive([], pieces1, limit) == Arrive([], pieces2, limit)
      {
        if Wrapped(all) {
          WrappedNotTooSoon(all, pieces1, limit);
          WrappedNotTooSoon(all, pieces2, limit);
        } else {
          ServedAlike(pieces1, pieces2, limit);
        }
      }
    }
  }

  // ----- the header section by itself

  lemma HeadInParts(all: Bytes, limit: nat, request: Request, start: nat)
    requires 4 <= start <= |all|
    ensures ChunkedHead(all, limit) == Some((request, start)) <==>
            && FindBlankLine(all) == Some(start - 4) && start <= limit
            && Analyze(all[..start]).Some? && Analyze(all[..start]).value.chunked
            && ParseRequest(all[..start]) == Ok(request)
  {
    hide Analyze, ParseRequest, FindBlankLine;
  }

  lemma HeadAlone(all: Bytes, limit: nat, request: Request, start: nat)
    requires ChunkedHead(all, limit) == Some((request, start))
    ensures start <= |all| && ChunkedHead(all[..start], limit) == Some((request, start))
  {
    hide Analyze, ParseRequest, FindBlankLine, NextFrame, ChunkedHead;
    HeadOfChunked(all, limit, request, start);
    HeadInParts(all, limit, request, start);
    BlankLineInFront(all, start);
    var head := all[..start];
    assert head[..start] == head;
    HeadInParts(head, limit, request, start);
  }

  lemma HeadWaits(head: Bytes, limit: nat, request: Request)
    requires ChunkedHead(head, limit) == Some((request, |head|))
    ensures NextFrame(head, limit) == HeaderComplete(request, true, None, |head|, true)
  {
    HeadOfChunked(head, limit, request, |head|);
    hide NextFrame, ChunkedHead;
    assert head[|head|..] == [];
    NothingThere([], 1);
  }

  lemma NothingFirst(pieces: seq<Bytes>, maxBody: nat)
    ensures Feed(START, [[]] + pieces, maxBody) == Feed(START, pieces, maxBody)
  {
    assert ([[]] + pieces)[1..] == pieces;
    EmptyRun(START, maxBody);
  }

  lemma ArriveAfterHead(head: Bytes, pieces: seq<Bytes>, limit: nat, request: Request)
    requires |head| <= limit && NextFrame(head, limit) == HeaderComplete(request, true, None, |head|, true)
    ensures Arrive([], [head] + pieces, limit) == Streamed(request, Feed(START, [[]] + pieces, limit - |head|))
  {
    hide NextFrame, Feed, ParseRequest;
    assert [] + head == head && head[|head|..] == [] && ([head] + pieces)[1..] == pieces;
  }

  /** When the header section is one read, all of the body is streamed. */
  lemma HeadThenPieces(all: Bytes, pieces: seq<Bytes>, limit: nat, request: Request, start: nat)
    requires ChunkedHead(all, limit) == Some((request, start))
    ensures start <= |all| && start <= limit
    ensures Arrive([], [all[..start]] + pieces, limit) == Streamed(request, Feed(START, pieces, limit - start))
  {
    hide NextFrame, ChunkedHead, Feed, Arrive, FindBlankLine;
    HeadOfChunked(all, limit, request, start);
    HeadAlone(all, limit, request, start);
    HeadWaits(all[..start], limit, request);
    ArriveAfterHead(all[..start], pieces, limit, request);
    NothingFirst(pieces, limit - start);
  }

  // ----- served at every timing

  lemma NotMalformedEarly(first: Bytes, more: Bytes)
    requires Chunks(first + more, false).Complete? && !Chunks(first, false).Incomplete?
    ensures Chunks(first, false).Complete?
    ensures |Chunks(first, false).rest| <= |first|
    ensures |first + more| - |Chunks(first + more, false).rest| == |first| - |Chunks(first, false).rest|
  {
    hide Chunks;
    ChunksStable(first, more, false);
    ChunksLeaveSuffix(first, false);
  }

  lemma LongIsComplete(first: Bytes, more: Bytes)
    requires Chunks(first + more, false).Complete?
    requires |first + more| - |Chunks(first + more, false).rest| <= |first|
    ensures Chunks(first, false).Complete?
  {
    hide Chunks;
    var all := first + more;
    ChunksInFront(all);
    var n := |all| - |Chunks(all, false).rest|;
    assert all[..n] == first[..n] && first == first[..n] + first[n..];
    ChunksStable(first[..n], first[n..], false);
  }

  lemma IncompleteIsShort(first: Bytes, more: Bytes)
    requires Chunks(first + more, false).Complete? && Chunks(first, false).Incomplete?
    ensures |Chunks(first + more, false).rest| <= |first + more|
    ensures |first| < |first + more| - |Chunks(first + more, false).rest|
  {
    hide Chunks;
    ChunksInFront(first + more);
    if |first + more| - |Chunks(first + more, false).rest| <= |first| {
      LongIsComplete(first, more);
    }
  }

  lemma ChunkedOpenEarly(first: Bytes, more: Bytes, start: nat, request: Request, limit: nat)
    requires start <= |first| && start <= limit && ChunkedFrame(first + more, start, request, limit).Framed?
    requires |first + more| <= MAX_STRING && !Wraps((first + more)[start..])
    ensures Open(ChunkedFrame(first, start, request, limit))
  {
    hide Chunks, ChunkedFrame, WrapsFrom;
    assert (first + more)[start..] == first[start..] + more;
    if Wraps(first[start..]) {
      WrapsStay(first[start..], more, 0);
    }
    ChunkedFrameByChunks(first + more, start, request, limit);
    ChunkedFrameByChunks(first, start, request, limit);
    if Chunks(first[start..], false).Incomplete? {
      IncompleteIsShort(first[start..], more);
    } else {
      NotMalformedEarly(first[start..], more);
    }
  }

  /** The front of a complete message is not refused. */
  lemma OpenEarly(first: Bytes, more: Bytes, limit: nat)
    requires NextFrame(first + more, limit).Framed? && |first + more| <= MAX_STRING && !Wrapped(first + more)
    ensures Open(NextFrame(first, limit))
  {
    hide Analyze, ParseRequest, ChunkedFrame, FindBlankLine, WrapsFrom;
    var all := first + more;
    var start: nat := FindBlankLine(all).value + 4;
    if |first| >= start {
      BlankLineInFront(all, |first|);
      assert all[..|first|] == first && all[..start] == first[..start];
      if Analyze(first[..start]).value.chunked {
        ChunkedOpenEarly(first, more, start, ParseRequest(first[..start]).value, limit);
      }
    } else {
      NoBlankLineYet(first, more);
    }
  }

  lemma NoBlankLineYet(first: Bytes, more: Bytes)
    requires FindBlankLine(first + more).Some? && |first| < FindBlankLine(first + more).value + 4
    ensures FindBlankLine(first).None?
  {
    hide FindBlankLine;
    if FindBlankLine(first).Some? {
      FindBlankLineStable(first, more);
    }
  }

  /** All lines of a complete message are clean, if it is chunked. */
  ghost predicate CleanMessage(all: Bytes, limit: nat) {
    && NextFrame(all, limit).Framed?
    && (ChunkedHead(all, limit).Some? ==>
          var start := ChunkedHead(all, limit).value.1; start <= |all| && Chunks(all[start..], true).Complete?)
  }

  lemma CleanIsFramed(all: Bytes, limit: nat)
    requires CleanMessage(all, limit)
    ensures NextFrame(all, limit).Framed?
  {
    hide NextFrame;
  }

  lemma CleanIsUnwrapped(all: Bytes, limit: nat)
    requires CleanMessage(all, limit) && |all| <= MAX_STRING
    ensures !Wrapped(all)
  {
    hide NextFrame, ChunkedHead, Chunks, Wrapped, WrapsFrom;
    HeadOfFrame(all, limit);
    if ChunkedHead(all, limit).Some? {
      HeadAnnounces(all, limit);
      StrictChunks(all[ChunkedHead(all, limit).value.1..]);
      Unwrapped(all[ChunkedHead(all, limit).value.1..]);
    } else {
      PlainIsUnwrapped(all, limit);
    }
  }

  /** A clean message whose header section has arrived. */
  lemma CleanIsStreamed(first: Bytes, later: seq<Bytes>, limit: nat)
    requires NextFrame(first, limit).HeaderComplete? && CleanMessage(first + Concat(later), limit)
    requires |first + Concat(later)| <= MAX_STRING
    ensures var frame := NextFrame(first, limit); var rest := [first[frame.consumed..]] + later;
      if frame.chunked then Feed(START, rest, limit - frame.consumed).Finished?
      else
        LengthFeed(if frame.contentLength.Some? then frame.contentLength.value else 0, [], rest).Whole?
  {
    hide NextFrame, Feed, LengthFeed, ChunkedHead, Chunks, FindBlankLine, ChunkedFrame, PlainFrame;
    var all, frame := first + Concat(later), NextFrame(first, limit);
    SameHead(first, Concat(later), limit);
    HeadOfFrame(first, limit);
    if frame.chunked {
      ChunkedHeadKept(first, Concat(later), limit);
      CleanMessageArrives(first, later, limit, frame, NextFrame(all, limit));
    } else {
      LatePlainBody(first, later, limit, frame, frame.contentLength.value);
    }
  }

  lemma {:induction false} CleanIsServed(buffer: Bytes, pieces: seq<Bytes>, limit: nat)
    requires pieces != [] && CleanMessage(buffer + Concat(pieces), limit) && |buffer + Concat(pieces)| <= MAX_STRING
    ensures Arrive(buffer, pieces, limit).Served?
    decreases |pieces|
  {
    hide NextFrame, Arrive, CleanMessage, Wrapped, Feed, LengthFeed;
    var filled, later := buffer + pieces[0], pieces[1..];
    var all := filled + Concat(later);
    assert buffer + Concat(pieces) == all;
    CleanIsUnwrapped(all, limit);
    CleanIsFramed(all, limit);
    OpenEarly(filled, Concat(later), limit);
    match NextFrame(filled, limit)
    case NeedMore =>
      ArriveWaits(buffer, pieces, limit);
      assert later == [] ==> filled == all;
      CleanIsServed(filled, later, limit);
    case Framed(_, _, _, _, _) => ArriveFramed(buffer, pieces, limit);
    case HeaderComplete(_, _, _, _, _) =>
      CleanIsStreamed(filled, later, limit);
      ArriveStreams(buffer, pieces, limit);
  }

  lemma WholeAtOnce(all: Bytes, limit: nat)
    requires Arrive([], [all], limit).Served? && |all| <= MAX_STRING
    ensures NextFrame(all, limit).Framed?
  {
    hide NextFrame, ParseRequest, Feed, LengthFeed, Chunks, ChunkedHead;
    assert [] + all == all && [all][1..] == [] && Concat([]) == [] && all + [] == all;
    var frame := NextFrame(all, limit);
    assert Arrive(all, [], limit) == Awaiting;
    match frame
    case HeaderComplete(request, chunked, length, start, _) =>
      SameHead(all, [], limit);
      if chunked {
        var end := Feed(START, [all[start..]] + [], limit - start);
        LateChunkedBody(all, [], limit, frame, end.body, end.rest);
      } else {
        LatePlainBody(all, [], limit, frame, length.value);
      }
    case _ =>
  }

  ghost predicate ServedAlways(all: Bytes, limit: nat) {
    forall pieces :: Concat(pieces) == all ==> Arrive([], pieces, limit).Served?
  }

  lemma BytewiseFinishes(s: Bytes, maxBody: nat)
    requires Feed(START, Bytewise(s), maxBody).Finished?
    ensures Chunks(s, true).Complete?
  {
    hide Feed, Chunks, Bytewise;
    FinishesExactly(s, maxBody);
  }

  lemma HeadAndBytes(all: Bytes, start: nat)
    requires start <= |all|
    ensures Concat([all[..start]] + Bytewise(all[start..])) == all
  {
    hide Bytewise;
    BytewiseIsCutting(all[start..]);
    assert ([all[..start]] + Bytewise(all[start..]))[1..] == Bytewise(all[start..]);
    assert all[..start] + all[start..] == all;
  }

  lemma ServedBytewise(all: Bytes, limit: nat, request: Request, start: nat)
    requires ChunkedHead(all, limit) == Some((request, start)) && ServedAlways(all, limit)
    ensures start <= |all| && Chunks(all[start..], true).Complete?
  {
    hide ChunkedHead, Arrive, Feed, Chunks, Bytewise, Concat, NextFrame;
    HeadOfChunked(all, limit, request, start);
    HeadThenPieces(all, Bytewise(all[start..]), limit, request, start);
    HeadAndBytes(all, start);
    BytewiseFinishes(all[start..], limit - start);
  }

  lemma AlwaysIsClean(all: Bytes, limit: nat)
    requires ServedAlways(all, limit) && |all| <= MAX_STRING
    ensures CleanMessage(all, limit)
  {
    hide NextFrame, ChunkedHead, Chunks, Arrive;
    ConcatOne(all);
    assert Arrive([], [all], limit).Served?;
    WholeAtOnce(all, limit);
    if ChunkedHead(all, limit).Some? {
      ServedBytewise(all, limit, ChunkedHead(all, limit).value.0, ChunkedHead(all, limit).value.1);
    }
  }

  /** Octets are served as a request at every timing if and only if they frame as a complete
      message and, when that is chunked, its lines are clean. */
  lemma AlwaysServedExactly(all: Bytes, limit: nat)
    requires |all| <= MAX_STRING
    ensures ServedAlways(all, limit) <==> CleanMessage(all, limit)
  {
    hide CleanMessage, NextFrame, Arrive;
    if ServedAlways(all, limit) {
      AlwaysIsClean(all, limit);
    }
    if CleanMessage(all, limit) {
      forall pieces | Concat(pieces) == all
        ensures Arrive([], pieces, limit).Served?
      {
        CleanPieces(all, pieces, limit);
      }
    }
  }

  lemma CleanPieces(all: Bytes, pieces: seq<Bytes>, limit: nat)
    requires Concat(pieces) == all && CleanMessage(all, limit) && |all| <= MAX_STRING
    ensures Arrive([], pieces, limit).Served?
  {
    SomePiece(all, pieces, limit);
    hide CleanMessage, Arrive;
    assert [] + all == all;
    CleanIsServed([], pieces, limit);
  }

  lemma SomePiece(all: Bytes, pieces: seq<Bytes>, limit: nat)
    requires Concat(pieces) == all && NextFrame(all, limit).Framed?
    ensures pieces != []
  {
    hide NextFrame;
    FrameFits(all, limit);
  }

  // ----- served at some timing

  /** The body streams to its end when all of it is one read. */
  ghost predicate StreamsAtOnce(all: Bytes, limit: nat) {
    ChunkedHead(all, limit).Some? &&
    var (_, start) := ChunkedHead(all, limit).value;
    && start <= |all| && start <= limit
    && Chunks(all[start..], false).Complete? && UnbrokenChunks(all[start..])
    && |Chunks(all[start..], false).body| <= limit - start
  }

  lemma StreamedAtOnce(first: Bytes, later: seq<Bytes>, limit: nat, early: Frame)
    requires early == NextFrame(first, limit) && early.HeaderComplete? && early.chunked
    requires Feed(START, [first[early.consumed..]] + later, limit - early.consumed).Finished?
    ensures StreamsAtOnce(first + Concat(later), limit)
  {
    hide NextFrame, Feed, Chunks, ChunkedHead, FindBlankLine, UnbrokenChunks;
    var pieces := [first[early.consumed..]] + later;
    assert pieces[1..] == later;
    HeadOfFrame(first, limit);
    ChunkedHeadKept(first, Concat(later), limit);
    SameHead(first, Concat(later), limit);
    SomeCuttingFinishes(Concat(pieces), limit - early.consumed);
  }

  lemma {:induction false} ServedStreamsOrFrames(buffer: Bytes, pieces: seq<Bytes>, limit: nat)
    requires Arrive(buffer, pieces, limit).Served? && |buffer + Concat(pieces)| <= MAX_STRING
    ensures var all := buffer + Concat(pieces); NextFrame(all, limit).Framed? || StreamsAtOnce(all, limit)
    decreases |pieces|
  {
    hide NextFrame, ParseRequest, Feed, LengthFeed, StreamsAtOnce;
    var filled, later := buffer + pieces[0], pieces[1..];
    assert buffer + Concat(pieces) == filled + Concat(later);
    var frame := NextFrame(filled, limit);
    match frame
    case NeedMore => ServedStreamsOrFrames(filled, later, limit);
    case Framed(_, _, _, _, _) => FramingStable(filled, Concat(later), limit);
    case HeaderComplete(request, chunked, length, start, _) =>
      if chunked {
        StreamedAtOnce(filled, later, limit, frame);
      } else {
        SameHead(filled, [], limit);
        StreamedPlainIsRead(filled, later, limit, frame, length.value);
      }
    case _ =>
  }

  lemma HeadThenRest(all: Bytes, limit: nat, request: Request, start: nat)
    requires ChunkedHead(all, limit) == Some((request, start)) && start <= |all| && start <= limit
    requires Run(START, all[start..], limit - start).Finished?
    ensures Concat([all[..start], all[start..]]) == all
    ensures Arrive([], [all[..start], all[start..]], limit).Served?
  {
    hide ChunkedHead, Arrive, Run;
    var head, tail := all[..start], all[start..];
    HeadThenPieces(all, [tail], limit, request, start);
    OnePiece(tail, limit - start);
    hide Feed;
    assert [head] + [tail] == [head, tail] && [head, tail][1..] == [tail] && head + tail == all;
  }

  ghost predicate ServedSometimes(all: Bytes, limit: nat) {
    exists pieces :: Concat(pieces) == all && Arrive([], pieces, limit).Served?
  }

  lemma StreamedIsServed(all: Bytes, limit: nat)
    requires StreamsAtOnce(all, limit)
    ensures ServedSometimes(all, limit)
  {
    hide ChunkedHead, Arrive, Feed, Chunks, UnbrokenChunks, Run;
    var (request, start) := ChunkedHead(all, limit).value;
    OneReadChunks(START, all[start..], limit - start);
    HeadThenRest(all, limit, request, start);
  }

  /** Octets are served as a request at some timing if and only if they frame as a complete
      message, or their chunked body streams to its end in one read: complete and within the
      limit, size and trailer lines without a bare LF, trailer lines not too long. */
  lemma SometimesServedExactly(all: Bytes, limit: nat)
    requires |all| <= MAX_STRING
    ensures ServedSometimes(all, limit) <==> NextFrame(all, limit).Framed? || StreamsAtOnce(all, limit)
  {
    hide NextFrame, Arrive, StreamsAtOnce, Reads;
    forall pieces | Concat(pieces) == all && Arrive([], pieces, limit).Served?
      ensures NextFrame(all, limit).Framed? || StreamsAtOnce(all, limit)
    {
      assert [] + all == all;
      ServedStreamsOrFrames([], pieces, limit);
    }
    if NextFrame(all, limit).Framed? {
      ConcatOne(all);
      FramedTogether(all, limit);
      assert Concat([all]) == all && Arrive([], [all], limit).Served?;
    } else if StreamsAtOnce(all, limit) {
      StreamedIsServed(all, limit);
    }
  }

  // ----- whether timing matters

  /** Whether and how octets are served does not depend on the timing. */
  ghost predicate Timeless(all: Bytes, limit: nat) {
    forall pieces1, pieces2 ::
      Concat(pieces1) == all && Concat(pieces2) == all && Arrive([], pieces1, limit).Served? ==>
        Arrive([], pieces2, limit) == Arrive([], pieces1, limit)
  }

  /** The exact condition: timing makes no difference if and only if the octets are a complete
      message whose chunked lines, if any, are clean; or they neither frame nor stream at all. */
  lemma TimingExactly(all: Bytes, limit: nat)
    requires |all| <= MAX_STRING
    ensures Timeless(all, limit) <==>
            CleanMessage(all, limit) || (!NextFrame(all, limit).Framed? && !StreamsAtOnce(all, limit))
  {
    hide NextFrame, Arrive, StreamsAtOnce, CleanMessage, Wrapped;
    AlwaysServedExactly(all, limit);
    SometimesServedExactly(all, limit);
    if ServedAlways(all, limit) {
      CleanIsUnwrapped(all, limit);
      forall pieces1, pieces2 | Concat(pieces1) == all && Concat(pieces2) == all
        ensures Arrive([], pieces2, limit) == Arrive([], pieces1, limit)
      {
        ServedAlike(pieces1, pieces2, limit);
      }
    }
    if Timeless(all, limit) && ServedSometimes(all, limit) {
      var pieces1 :| Concat(pieces1) == all && Arrive([], pieces1, limit).Served?;
      forall pieces2 | Concat(pieces2) == all
        ensures Arrive([], pieces2, limit).Served?
      {
        assert Arrive([], pieces2, limit) == Arrive([], pieces1, limit);
      }
    }
    if CleanMessage(all, limit) {
      CleanIsFramed(all, limit);
    }
  }

  /** For a complete chunked message that means: timing makes no difference if and only if its
      size and trailer lines are clean. */
  lemma CompleteMessageTiming(all: Bytes, limit: nat)
    requires NextFrame(all, limit).Framed? && NextFrame(all, limit).chunked && |all| <= MAX_STRING
    ensures FindBlankLine(all).Some? && FindBlankLine(all).value + 4 <= |all|
    ensures Timeless(all, limit) <==> Chunks(all[FindBlankLine(all).value + 4..], true).Complete?
  {
    TimingExactly(all, limit);
    hide NextFrame, Timeless, Chunks, ChunkedHead, StreamsAtOnce;
    HeadOfFrame(all, limit);
    HeadOfChunked(all, limit, ChunkedHead(all, limit).value.0, ChunkedHead(all, limit).value.1);
  }

  lemma OversizedIsRefused(all: Bytes, start: nat, request: Request, limit: nat)
    requires start <= |all| <= MAX_STRING && start <= limit && Chunks(all[start..], false).Complete?
    requires |all| - |Chunks(all[start..], false).rest| > limit
    ensures ChunkedFrame(all, start, request, limit) == Refused(400, |all|, false)
  {
    hide Chunks, ChunkedFrame, WrapsFrom;
    ChunksLeaveSuffix(all[start..], false);
    Unwrapped(all[start..]);
    ChunkedFrameByChunks(all, start, request, limit);
  }

  /** For a chunked message whose encoding exceeds the limit: it is refused when all of it is
      there at once, and timing makes no difference if and only if it does not stream either,
      for its lines or for the length of its body. */
  lemma OversizedMessageTiming(all: Bytes, limit: nat, request: Request, start: nat, body: Bytes, rest: Bytes)
    requires ChunkedHead(all, limit) == Some((request, start)) && start <= |all|
    requires Chunks(all[start..], false) == Complete(body, rest) && |all| - |rest| > limit && |all| <= MAX_STRING
    ensures Arrive([], [all], limit) == TurnedAway(400)
    ensures Timeless(all, limit) <==> !UnbrokenChunks(all[start..]) || |body| > limit - start
  {
    hide NextFrame, Timeless, Chunks, ChunkedHead, UnbrokenChunks, ParseRequest;
    TimingExactly(all, limit);
    HeadOfChunked(all, limit, request, start);
    OversizedIsRefused(all, start, request, limit);
    assert [] + all == all;
  }

  lemma StrictIsUnbroken(s: Bytes)
    requires Chunks(s, true).Complete?
    ensures Chunks(s, false) == Chunks(s, true) && UnbrokenChunks(s)
  {
    hide Chunks, Feed, Run, UnbrokenChunks;
    StrictChunks(s);
    ConcatOne(s);
    var maxBody := |Chunks(s, true).body|;
    StrictInputFinishes([s], maxBody);
    OneReadIsEasiest(START, [s], maxBody);
    OneReadChunks(START, s, maxBody);
  }

  /** Such messages are not rare: a header section that leaves five octets, and one chunk of one
      octet. Its lines are clean and its body fits, but the encoding takes eleven octets. */
  lemma OneOctetTooMany(head: Bytes, request: Request, octet: Byte)
    requires ChunkedHead(head, |head| + 5) == Some((request, |head|)) && |head| + 11 <= MAX_STRING
    ensures var all, limit := head + Encoded([[octet]]), |head| + 5;
      && ServedSometimes(all, limit)
      && Arrive([], [all], limit) == TurnedAway(400)
      && !Timeless(all, limit)
  {
    hide Chunks, ChunkedHead, Encoded, UnbrokenChunks, Timeless, Arrive, NextFrame;
    var limit, tail := |head| + 5, Encoded([[octet]]);
    var all := head + tail;
    ChunkedHeadKept(head, tail, limit);
    assert all[|head|..] == tail;
    EncodeUndone([[octet]], []);
    assert tail + [] == tail;
    ConcatOne([octet]);
    StrictIsUnbroken(tail);
    ElevenOctets(octet);
    OversizedMessageTiming(all, limit, request, |head|, [octet], []);
    SometimesServedExactly(all, limit);
  }

  lemma ElevenOctets(octet: Byte)
    ensures |Encoded([[octet]])| == 11
  {
    assert Digits(1, Hexadecimal) == [49];
    assert [[octet]][1..] == [] && ChunksWire([]) == [];
  }

  // ----- an example of a sum that wraps

  /** The same request, by the decoder for a whole buffer, with what is behind it in its body. */
  lemma WrappedFrameIs(head: Bytes, request: Request, chunks: seq<Bytes>, suffix: Bytes, limit: nat)
    requires ChunkedHead(head, limit) == Some((request, |head|)) && Countable(chunks)
    requires |head + (BackLine() + (Encoded(chunks) + suffix))| <= MAX_STRING
    requires |head| + |BackLine() + Encoded(chunks)| <= limit
    ensures var encoded := BackLine() + (Encoded(chunks) + suffix);
      && Wrapped(head + encoded)
      && NextFrame(head + encoded, limit).Framed?
      && NextFrame(head + encoded, limit).consumed == |head| + |BackLine() + Encoded(chunks)|
      && ParseRequest(NextFrame(head + encoded, limit).rawRequest)
         == Ok(request.(body := Encoded(chunks) + suffix + Concat(chunks)))
  {
    hide Encoded, BackLine, ChunkedHead, Decoding, NextFrame, ParseRequest, FindBlankLine, Announces, WrapsFrom,
         Wrapped, Chunks;
    var encoded := BackLine() + (Encoded(chunks) + suffix);
    var all := head + encoded;
    ChunkedHeadKept(head, encoded, limit);
    HeadOfChunked(all, limit, request, |head|);
    assert all[|head|..] == encoded;
    WrapReadsTwice(chunks, suffix);
    HeadAnnounces(all, limit);
    FramerAndParserAgree(all, limit);
  }

  lemma WrapIsServed(head: Bytes, request: Request, chunks: seq<Bytes>, suffix: Bytes, limit: nat)
    requires ChunkedHead(head, limit) == Some((request, |head|)) && Countable(chunks)
    requires |head + (BackLine() + (Encoded(chunks) + suffix))| <= MAX_STRING
    requires |head| + |BackLine() + Encoded(chunks)| <= limit
    ensures var message, tail := head + (BackLine() + Encoded(chunks)), Encoded(chunks);
      && Arrive([], [message + suffix], limit) == Served(request.(body := tail + suffix + Concat(chunks)), suffix)
      && Arrive([], [message, suffix], limit) == Served(request.(body := tail + Concat(chunks)), suffix)
  {
    hide Encoded, BackLine, ChunkedHead, NextFrame, ParseRequest, Wrapped, Arrive;
    var tail := Encoded(chunks);
    var message := head + (BackLine() + tail);
    assert tail + [] == tail && message + suffix == head + (BackLine() + (tail + suffix));
    WrappedFrameIs(head, request, chunks, [], limit);
    WrappedFrameIs(head, request, chunks, suffix, limit);
    FramedAlone(message, suffix, limit);
    FramedTogether(message + suffix, limit);
    assert (message + suffix)[|message|..] == suffix && message[|message|..] + suffix == suffix;
  }

  lemma WrapNeverFinishes(chunks: seq<Bytes>, maxBody: nat)
    requires Countable(chunks) && |BackLine() + Encoded(chunks)| <= MAX_STRING
    ensures !Feed(START, [BackLine() + Encoded(chunks)], maxBody).Finished?
  {
    hide Encoded, BackLine, Feed, Chunks, Decoding, WrapsFrom;
    var encoded := BackLine() + Encoded(chunks);
    ConcatOne(encoded);
    assert Encoded(chunks) + [] == Encoded(chunks);
    WrapReadsTwice(chunks, []);
    if Feed(START, [encoded], maxBody).Finished? {
      StreamingRefinesBatch([encoded], maxBody);
    }
  }

  lemma WrapIsNotStreamed(head: Bytes, request: Request, chunks: seq<Bytes>, limit: nat)
    requires ChunkedHead(head, limit) == Some((request, |head|)) && Countable(chunks)
    requires |head + (BackLine() + Encoded(chunks))| <= MAX_STRING
    ensures !Arrive([], [head, BackLine() + Encoded(chunks)], limit).Served?
  {
    hide Encoded, BackLine, ChunkedHead, Arrive, Feed, NextFrame, FindBlankLine, ChunkedFrame;
    var encoded := BackLine() + Encoded(chunks);
    HeadOfChunked(head, limit, request, |head|);
    ChunkedHeadKept(head, encoded, limit);
    HeadThenPieces(head + encoded, [encoded], limit, request, |head|);
    assert (head + encoded)[..|head|] == head && [head] + [encoded] == [head, encoded];
    WrapNeverFinishes(chunks, limit - |head|);
  }

  /** A chunked header section, the line of a size that takes the cursor back to it, and the
      encoding of any chunks: it frames as complete at once, with the encoding in the body and with
      whatever is behind it in the same read; and it is not served when the header section comes
      first. */
  lemma WrapDependsOnTiming(head: Bytes, request: Request, chunks: seq<Bytes>, suffix: Bytes, limit: nat)
    requires ChunkedHead(head, limit) == Some((request, |head|)) && Countable(chunks) && suffix != []
    requires |head + (BackLine() + (Encoded(chunks) + suffix))| <= MAX_STRING
    requires |head| + |BackLine() + Encoded(chunks)| <= limit
    ensures var message, tail := head + (BackLine() + Encoded(chunks)), Encoded(chunks);
      && Arrive([], [message + suffix], limit) == Served(request.(body := tail + suffix + Concat(chunks)), suffix)
      && Arrive([], [message, suffix], limit) == Served(request.(body := tail + Concat(chunks)), suffix)
      && !Arrive([], [head, BackLine() + tail], limit).Served?
      && !AlwaysAlike(message + suffix, limit) && !Timeless(message, limit)
  {
    hide Encoded, BackLine, ChunkedHead, Arrive, AlwaysAlike, Timeless, Concat;
    var encoded, tail := BackLine() + Encoded(chunks), Encoded(chunks);
    var message := head + encoded;
    WrapIsServed(head, request, chunks, suffix, limit);
    WrapIsServed(head, request, chunks, [], limit);
    WrapIsNotStreamed(head, request, chunks, limit);
    TwoPieces(message, suffix);
    TwoPieces(head, encoded);
    assert |tail + suffix + Concat(chunks)| != |tail + Concat(chunks)|;
    assert message + [] == message;
    NotAlike(message + suffix, [message + suffix], [message, suffix], limit);
    NotTimeless(message, [message], [head, encoded], limit);
  }

  lemma NotAlike(all: Bytes, pieces1: seq<Bytes>, pieces2: seq<Bytes>, limit: nat)
    requires Concat(pieces1) == all && Concat(pieces2) == all
    requires Arrive([], pieces1, limit).Served? && Arrive([], pieces2, limit).Served?
    requires Arrive([], pieces1, limit) != Arrive([], pieces2, limit)
    ensures !AlwaysAlike(all, limit)
  {
    hide Arrive, Concat;
  }

  lemma NotTimeless(all: Bytes, pieces1: seq<Bytes>, pieces2: seq<Bytes>, limit: nat)
    requires Concat(pieces1) == all && Concat(pieces2) == all
    requires Arrive([], pieces1, limit).Served? && !Arrive([], pieces2, limit).Served?
    ensures !Timeless(all, limit)
  {
    hide Arrive, Concat;
  }

  lemma TwoPieces(a: Bytes, b: Bytes)
    ensures Concat([a, b]) == a + b && Concat([a + b]) == a + b && Concat([a]) == a
  {
    ConcatOne(a);
    ConcatOne(b);
    ConcatOne(a + b);
    assert [a, b][1..] == [b];
  }
}
