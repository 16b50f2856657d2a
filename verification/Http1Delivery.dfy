/** What becomes of a request that arrives in any reads, by the rules for its header section: which
    refusal with which status, or which request with which body (sections 5 and 6 of RFC 9112). */
module Http1Delivery {
  import opened Wrappers
  import opened Octets
  import opened RequestText
  import opened ChunkedBody
  import opened ChunkedDecoding
  import opened ChunkedGrammar
  import opened ChunkedStream
  import opened ChunkedLimits
  import opened BodyStream
  import opened Http1Framing
  import opened Http1Agreement
  import opened Http1Arrival
  import Rules = Http1Acceptance

  // ----- until the header section is there

  lemma NotYet(filled: Bytes, lines: seq<Bytes>, rest: Bytes, limit: nat)
    requires Rules.AreLines(lines) && filled + rest == Section(lines) && rest != [] && |filled| <= limit
    ensures NextFrame(filled, limit) == NeedMore
  {
    hide Section, FindBlankLine;
    Rules.BlankLineEnds(lines);
    var head := Section(lines);
    forall i
      ensures !BlankLineAt(filled, i)
    {
      assert BlankLineAt(filled, i) ==> BlankLineAt(head, i) && i < |head| - 4;
    }
  }

  lemma ArriveWaiting(buffer: Bytes, pieces: seq<Bytes>, limit: nat)
    requires pieces != [] && NextFrame(buffer + pieces[0], limit) == NeedMore
    ensures Arrive(buffer, pieces, limit) == Arrive(buffer + pieces[0], pieces[1..], limit)
  {
    hide NextFrame, ParseRequest, Feed, LengthFeed;
  }

  /** As if all up to the read with the end of the header section had been one read. */
  lemma ArriveTogether(buffer: Bytes, piece: Bytes, later: seq<Bytes>, limit: nat)
    ensures Arrive(buffer, [piece] + later, limit) == Arrive([], [buffer + piece] + later, limit)
  {
    hide NextFrame, ParseRequest, Feed, LengthFeed;
    assert [] + (buffer + piece) == buffer + piece;
    assert ([piece] + later)[1..] == later && ([buffer + piece] + later)[1..] == later;
    assert ([piece] + later)[0] == piece && ([buffer + piece] + later)[0] == buffer + piece;
  }

  lemma SomethingLeft(buffer: Bytes, pieces: seq<Bytes>, head: Bytes, more: Bytes)
    requires buffer + Concat(pieces) == head + more && |buffer| < |head|
    ensures pieces != []
  {
  }

  lemma {:induction false} HeadArrives(buffer: Bytes, pieces: seq<Bytes>, lines: seq<Bytes>, more: Bytes, limit: nat)
      returns (front: Bytes, later: seq<Bytes>)
    requires Rules.AreLines(lines) && |Section(lines)| <= limit
    requires buffer + Concat(pieces) == Section(lines) + more && |buffer| < |Section(lines)|
    ensures front + Concat(later) == more
    ensures Arrive(buffer, pieces, limit) == Arrive([], [Section(lines) + front] + later, limit)
    decreases |pieces|
  {
    hide Section, NextFrame, Arrive, Rules.AreLines;
    var head := Section(lines);
    SomethingLeft(buffer, pieces, head, more);
    var filled := buffer + pieces[0];
    assert buffer + Concat(pieces) == filled + Concat(pieces[1..]);
    if |filled| < |head| {
      assert head[..|filled|] == (head + more)[..|filled|] == filled;
      NotYet(filled, lines, head[|filled|..], limit);
      ArriveWaiting(buffer, pieces, limit);
      front, later := HeadArrives(filled, pieces[1..], lines, more, limit);
    } else {
      front, later := filled[|head|..], pieces[1..];
      assert filled[..|head|] == (head + more)[..|head|] == head;
      assert head + front == filled;
      assert front + Concat(later) == (head + more)[|head|..];
      ArriveTogether(buffer, pieces[0], later, limit);
      assert [pieces[0]] + later == pieces;
    }
  }

  // ----- from the first read with the header section on

  lemma FirstRefused(first: Bytes, later: seq<Bytes>, limit: nat)
    requires NextFrame(first, limit).Refused?
    ensures Arrive([], [first] + later, limit) == TurnedAway(NextFrame(first, limit).status)
  {
    hide NextFrame;
    assert [] + first == first && ([first] + later)[0] == first;
  }

  lemma FirstFramed(first: Bytes, later: seq<Bytes>, limit: nat)
    requires NextFrame(first, limit).Framed?
    ensures var frame := NextFrame(first, limit);
      ParseRequest(frame.rawRequest).Ok? ==>
        Arrive([], [first] + later, limit)
        == Served(ParseRequest(frame.rawRequest).value, first[frame.consumed..] + Concat(later))
  {
    hide NextFrame, ParseRequest;
    assert [] + first == first && ([first] + later)[0] == first && ([first] + later)[1..] == later;
  }

  lemma FirstWaits(first: Bytes, later: seq<Bytes>, limit: nat, size: nat)
    requires var frame := NextFrame(first, limit);
      frame.HeaderComplete? && !frame.chunked && frame.contentLength == Some(size)
    ensures var frame := NextFrame(first, limit);
      Arrive([], [first] + later, limit)
      == StreamedPlain(frame.request, LengthFeed(size, [], [first[frame.consumed..]] + later))
  {
    hide NextFrame, LengthFeed;
    assert [] + first == first && ([first] + later)[0] == first && ([first] + later)[1..] == later;
  }

  /** What a request with no body, or one of an announced length, comes to. */
  predicate RightVerdict(v: Verdict, request: Request, head: Bytes, size: nat, more: Bytes, limit: nat) {
    if |head| + size > limit then v == TurnedAway(413)
    else if |more| < size then v == Awaiting
    else v == Served(request.(body := more[..size]), more[size..])
  }

  lemma PlainFromHead(lines: seq<Bytes>, a: Analysis, front: Bytes, later: seq<Bytes>, limit: nat)
    requires Rules.AreLines(lines) && |Section(lines)| <= limit && Rules.Accepts(lines, a) && !a.chunked
    requires ParseRequest(Section(lines)).Ok?
    ensures RightVerdict(Arrive([], [Section(lines) + front] + later, limit), ParseRequest(Section(lines)).value,
                         Section(lines), if a.contentLength.Some? then a.contentLength.value else 0,
                         front + Concat(later), limit)
  {
    hide Section, NextFrame, Arrive, Rules.AreLines, Rules.Accepts, ParseRequest, Analyze, FindBlankLine, LengthFeed;
    var head, first, more := Section(lines), Section(lines) + front, front + Concat(later);
    var size := if a.contentLength.Some? then a.contentLength.value else 0;
    Rules.FrameExactly(lines, front, limit);
    var frame := NextFrame(first, limit);
    assert Rules.RightFrame(frame, head, a, front, limit);
    if |head| + size > limit {
      FirstRefused(first, later, limit);
    } else if |front| < size {
      assert first[|head|..] == front;
      FirstWaits(first, later, limit, size);
      LengthFeedSplits(size, [], [front] + later);
      JoinedFirst(front, later);
    } else {
      HeadIsPaired(lines, a);
      HeadThenBody(head, front[..size]);
      FirstFramed(first, later, limit);
      SplitMore(head, front, Concat(later), size);
    }
  }

  lemma JoinedFirst(front: Bytes, later: seq<Bytes>)
    ensures Concat([front] + later) == front + Concat(later) && [] + Concat([front] + later) == Concat([front] + later)
  {
    assert ([front] + later)[1..] == later;
  }

  lemma SplitMore(head: Bytes, front: Bytes, rest: Bytes, size: nat)
    requires size <= |front|
    ensures (front + rest)[..size] == front[..size]
    ensures (head + front)[|head| + size..] + rest == (front + rest)[size..]
  {
  }

  lemma HeadIsPaired(lines: seq<Bytes>, a: Analysis)
    requires Rules.AreLines(lines) && Rules.Accepts(lines, a)
    ensures Paired(Section(lines)) && FindBlankLine(Section(lines)) == Some(|Section(lines)| - 4)
  {
    hide Section, FindBlankLine, Paired, NoOtherControls, Rules.AreLines, Rules.Accepts, ReadHead, Conclusion;
    Rules.AcceptsExactly(lines, a);
    Rules.BlankLineEnds(lines);
  }

  lemma RefusedFromHead(lines: seq<Bytes>, front: Bytes, later: seq<Bytes>, limit: nat)
    requires Rules.AreLines(lines) && |Section(lines)| <= limit
    requires (forall a :: !Rules.Accepts(lines, a)) || ParseRequest(Section(lines)).Err?
    ensures Arrive([], [Section(lines) + front] + later, limit) == TurnedAway(400)
  {
    assert lines != [];
    hide Section, NextFrame, Arrive, Rules.AreLines, Rules.Accepts, ParseRequest;
    Rules.FrameExactly(lines, front, limit);
    if a :| Rules.Accepts(lines, a) {
      assert Rules.RightFrame(NextFrame(Section(lines) + front, limit), Section(lines), a, front, limit);
    }
    FirstRefused(Section(lines) + front, later, limit);
  }

  /** In whatever reads a request arrives whose header section is within the limit: it is refused with
      400 if the section breaks the rules or cannot be parsed, with 413 if the length that it
      announces is too much; else it is served as soon as its octets are there, with exactly them
      as its body, and what is behind them is left. */
  lemma PlainVerdict(pieces: seq<Bytes>, lines: seq<Bytes>, more: Bytes, limit: nat)
    requires Rules.AreLines(lines) && |Section(lines)| <= limit && Concat(pieces) == Section(lines) + more
    ensures (forall a :: !Rules.Accepts(lines, a)) || ParseRequest(Section(lines)).Err? ==>
              Arrive([], pieces, limit) == TurnedAway(400)
    ensures forall a :: Rules.Accepts(lines, a) && !a.chunked && ParseRequest(Section(lines)).Ok? ==>
      RightVerdict(Arrive([], pieces, limit), ParseRequest(Section(lines)).value, Section(lines),
                   if a.contentLength.Some? then a.contentLength.value else 0, more, limit)
  {
    assert lines != [];
    hide Section, NextFrame, Arrive, Rules.AreLines, Rules.Accepts, ParseRequest, RightVerdict;
    assert [] + Concat(pieces) == Concat(pieces);
    assert |Section(lines)| > 0 by { Rules.BlankLineEnds(lines); }
    var front, later := HeadArrives([], pieces, lines, more, limit);
    if (forall a :: !Rules.Accepts(lines, a)) || ParseRequest(Section(lines)).Err? {
      RefusedFromHead(lines, front, later, limit);
    }
    forall a | Rules.Accepts(lines, a) && !a.chunked && ParseRequest(Section(lines)).Ok?
      ensures RightVerdict(Arrive([], pieces, limit), ParseRequest(Section(lines)).value, Section(lines),
                           if a.contentLength.Some? then a.contentLength.value else 0, more, limit)
    {
      PlainFromHead(lines, a, front, later, limit);
    }
  }

  /** So a printed request without framing headers is served, with the headers that were printed, in
      whatever reads it arrives. */
  lemma PrintedRequestIsServed(pieces: seq<Bytes>, verb: Bytes, target: Bytes, fields: seq<(Bytes, Bytes)>,
      more: Bytes, limit: nat)
    requires IsWord(verb) && IsWord(target) && Rules.CleanLine(verb) && Rules.CleanLine(target)
    requires forall i :: 0 <= i < |fields| ==> Rules.Printable(fields[i])
    requires Rules.NoFramingHeaders(fields) && |Rules.Printed(verb, target, fields)| <= limit
    requires Concat(pieces) == Rules.Printed(verb, target, fields) + more
    ensures Arrive([], pieces, limit)
        == Served(Request(verb, target, Http11(), Rules.HeadersFrom(fields), []), more)
  {
    hide Section, NextFrame, Arrive, Rules.AreLines, Rules.Accepts, ParseRequest, Rules.CleanLine, IsWord,
         Rules.Printable, Rules.HeadersFrom, Rules.NoFramingHeaders, Fields, Http11;
    var request := Request(verb, target, Http11(), Rules.HeadersFrom(fields), []);
    var lines := Rules.PrintedLinesOf(verb, target, fields);
    Rules.PrintedIsAccepted(verb, target, fields);
    PlainVerdict(pieces, lines, more, limit);
    assert RightVerdict(Arrive([], pieces, limit), request, Section(lines), 0, more, limit);
    assert more[..0] == [] && more[0..] == more;
  }

  // ----- header sections that do not end

  lemma NoBlankInFront(s: Bytes, more: Bytes)
    requires forall i :: !BlankLineAt(s + more, i)
    ensures forall i :: !BlankLineAt(s, i)
  {
    forall i
      ensures BlankLineAt(s, i) ==> BlankLineAt(s + more, i)
    {
    }
  }

  lemma {:induction false} NoHeadYet(buffer: Bytes, pieces: seq<Bytes>, limit: nat)
    requires forall i :: !BlankLineAt(buffer + Concat(pieces), i)
    requires |buffer| <= limit
    ensures Arrive(buffer, pieces, limit)
        == if |buffer + Concat(pieces)| > limit then TurnedAway(431) else Awaiting
    decreases |pieces|
  {
    if pieces != [] {
      var filled := buffer + pieces[0];
      assert filled + Concat(pieces[1..]) == buffer + Concat(pieces);
      NoBlankInFront(filled, Concat(pieces[1..]));
      Rules.NothingToFrame(filled, limit);
      hide NextFrame;
      if |filled| <= limit {
        NoHeadYet(filled, pieces[1..], limit);
      }
    }
  }

  /** Octets without an empty line are refused with 431 as soon as they are more than the limit. */
  lemma EndlessHead(pieces: seq<Bytes>, limit: nat)
    requires forall i :: !BlankLineAt(Concat(pieces), i)
    ensures Arrive([], pieces, limit) == if |Concat(pieces)| > limit then TurnedAway(431) else Awaiting
  {
    hide Arrive;
    assert [] + Concat(pieces) == Concat(pieces);
    NoHeadYet([], pieces, limit);
  }

  // ----- chunked bodies behind their header section

  lemma NothingDecoded()
    ensures Decoding([]) == DecodeIncomplete
  {
  }

  /** When the header section is one read and announces a chunked body, then a body that the grammar
      writes with clean lines is served, however the rest is cut; or refused with 413 if it is more
      than the limit leaves for it. */
  lemma ChunkedVerdict(lines: seq<Bytes>, pieces: seq<Bytes>, body: Bytes, rest: Bytes, limit: nat)
    requires Rules.AreLines(lines) && Rules.Accepts(lines, Analysis(true, None)) && |Section(lines)| <= limit
    requires ParseRequest(Section(lines)).Ok? && IsBody(Concat(pieces), body, rest, true)
    ensures Arrive([], [Section(lines)] + pieces, limit)
        == if |Section(lines)| + |body| > limit then TurnedAway(413)
           else Served(ParseRequest(Section(lines)).value.(body := body), rest)
  {
    hide Section, NextFrame, Arrive, Rules.AreLines, Rules.Accepts, ParseRequest, IsBody, Feed, Decoding;
    var head := Section(lines);
    Rules.FrameExactly(lines, [], limit);
    NothingDecoded();
    assert head + [] == head;
    assert Rules.RightFrame(NextFrame(head, limit), head, Analysis(true, None), [], limit);
    ArriveAfterHead(head, pieces, limit, ParseRequest(head).value);
    NothingFirst(pieces, limit - |head|);
    CleanBodyStreams(pieces, body, rest, limit - |head|);
  }
}
