/** Which of the two decoders reads a request body depends on how much of it has arrived with
    the header section: how the one's result relates to the other's. */
module Http1Timing {
  import opened Wrappers
  import opened Octets
  import opened RequestText
  import opened ChunkedBody
  import opened ChunkedDecoding
  import opened ChunkedStream
  import opened BodyStream
  import opened Http1Framing

  /** A header section that was accepted early is accepted in the same way later. */
  lemma SameHead(first: Bytes, more: Bytes, limit: nat)
    requires NextFrame(first, limit).HeaderComplete?
    ensures var early := NextFrame(first, limit); var start := early.consumed; var all := first + more;
      && start <= |first| && start <= limit
      && all[start..] == first[start..] + more && all[..start] == first[..start]
      && (early.chunked ==> NextFrame(all, limit) == ChunkedFrame(all, start, early.request, limit))
      && (!early.chunked ==>
            && early.contentLength.Some? && start + early.contentLength.value <= limit
            && NextFrame(all, limit) == PlainFrame(all, start, early.request, early.contentLength.value, limit))
  {
    hide Analyze, ParseRequest, FindBlankLine, Decoding;
    FindBlankLineStable(first, more);
    var start: nat := FindBlankLine(first).value + 4;
    assert (first + more)[..start] == first[..start];
    assert (first + more)[start..] == first[start..] + more;
  }

  /** A chunked body that the incremental decoder finishes is the one that the framer would
      have decoded, had all of it been there at once, and the next request starts at the same
      octet. Only the limits differ: the framer counts the encoded octets. */
  lemma LateChunkedBody(first: Bytes, later: seq<Bytes>, limit: nat, early: Frame, body: Bytes, rest: Bytes)
    requires early == NextFrame(first, limit) && early.HeaderComplete? && early.chunked
    requires Feed(START, [first[early.consumed..]] + later, limit - early.consumed) == Finished(body, rest)
    requires |first + Concat(later)| <= MAX_STRING
    ensures var all := first + Concat(later);
      && |rest| <= |all| && all[|all| - |rest|..] == rest
      && NextFrame(all, limit) ==
         if |all| - |rest| <= limit
         then Framed(early.request, true, None, |all| - |rest|, first[..early.consumed] + body)
         else Refused(400, |all|, false)
  {
    hide NextFrame, Feed, Chunks, Decoding;
    var start := early.consumed;
    var pieces := [first[start..]] + later;
    assert pieces[1..] == later;
    SameHead(first, Concat(later), limit);
    StreamingRefinesBatch(pieces, limit - start);
    var all := first + Concat(later);
    assert all[start..][|all[start..]| - |rest|..] == all[|all| - |rest|..];
  }

  /** A body is no longer than its chunked form. */
  lemma {:induction false} DecodedIsShorter(s: Bytes)
    requires Chunks(s, false).Complete?
    ensures |Chunks(s, false).body| + |Chunks(s, false).rest| <= |s|
    decreases |s|
  {
    FrontIsLonger(s);
    hide FrontOf, Trailers;
    var after := FrontOf(s, false).after;
    if FrontOf(s, false).Last? {
      TrailersLeaveSuffix(after, false);
      TrailersNeverMalformed(after);
    } else {
      DecodedIsShorter(after);
    }
  }

  lemma FrontIsLonger(s: Bytes)
    ensures FrontOf(s, false).Chunk? ==> |FrontOf(s, false).data| + |FrontOf(s, false).after| <= |s|
  {
    hide SizeOn, LineEnd;
  }

  /** The other way round: a message that frames as complete, and whose size and trailer lines
      are clean, is read with the same result however it is cut. */
  lemma CleanMessageArrives(first: Bytes, later: seq<Bytes>, limit: nat, early: Frame, whole: Frame)
    requires early == NextFrame(first, limit) && early.HeaderComplete? && early.chunked
    requires whole == NextFrame(first + Concat(later), limit) && whole.Framed?
    requires Chunks((first + Concat(later))[early.consumed..], true).Complete?
    requires |first + Concat(later)| <= MAX_STRING
    ensures var end := Feed(START, [first[early.consumed..]] + later, limit - early.consumed);
      && end.Finished?
      && whole.consumed <= |first + Concat(later)| && end.rest == (first + Concat(later))[whole.consumed..]
      && whole.rawRequest == first[..early.consumed] + end.body
  {
    hide NextFrame, Feed, Chunks, Decoding, WrapsFrom;
    var start := early.consumed;
    var pieces := [first[start..]] + later;
    assert pieces[1..] == later;
    SameHead(first, Concat(later), limit);
    var all := first + Concat(later);
    StrictChunks(all[start..]);
    Unwrapped(all[start..]);
    UnwrappedDecoding(all[start..]);
    DecodedIsShorter(all[start..]);
    ChunksLeaveSuffix(all[start..], false);
    StrictInputFinishes(pieces, limit - start);
  }

  lemma PlainWhole(all: Bytes, first: Bytes, more: Bytes, start: nat, request: Request, length: nat, limit: nat)
    requires all == first + more && start <= |first| && start + length <= limit && start + length <= |all|
    ensures PlainFrame(all, start, request, length, limit)
            == Framed(request, false, Some(length), start + length, first[..start] + all[start..][..length])
    ensures all[start..][length..] == all[start + length..]
  {
    assert all[..start + length] == first[..start] + all[start..][..length];
  }

  /** The same for a body with a Content-Length, for every cutting. */
  lemma LatePlainBody(first: Bytes, later: seq<Bytes>, limit: nat, early: Frame, length: nat)
    requires early == NextFrame(first, limit) && early.HeaderComplete? && !early.chunked
    requires early.contentLength == Some(length)
    ensures var start := early.consumed; var all := first + Concat(later);
      match LengthFeed(length, [], [first[start..]] + later)
      case Whole(body, rest) =>
        && start + length <= |all| && rest == all[start + length..]
        && NextFrame(all, limit) == Framed(early.request, false, Some(length), start + length, first[..start] + body)
      case More(body) =>
        && NextFrame(all, limit) == early && body == all[start..]
  {
    hide NextFrame, LengthFeed, ChunkedFrame;
    var start := early.consumed;
    var pieces := [first[start..]] + later;
    var all := first + Concat(later);
    assert pieces[1..] == later && first + [] == first;
    SameHead(first, Concat(later), limit);
    SameHead(first, [], limit);
    assert [] + Concat(pieces) == all[start..];
    LengthFeedSplits(length, [], pieces);
    if |all| >= start + length {
      hide PlainFrame;
      PlainWhole(all, first, Concat(later), start, early.request, length, limit);
    }
  }
}
