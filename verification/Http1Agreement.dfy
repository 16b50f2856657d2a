/** The framer and the parser, which find lines in different ways, agree on where the body of a
    request starts, what it is, and which headers say so (sections 2.2 and 6 of RFC 9112). */
module Http1Agreement {
  import opened Wrappers
  import opened Octets
  import opened RequestText
  import opened ChunkedBody
  import opened ChunkedDecoding
  import opened Http1Framing

  // ----- lines of a header section without bare CR or LF

  lemma NoEarlierLineFeed(s: Bytes)
    requires Paired(s) && FindCrlf(s).Some?
    ensures LF !in s[..FindCrlf(s).value + 1]
  {
    var end: nat := FindCrlf(s).value;
    forall i | 0 <= i <= end
      ensures s[i] != LF
    {
      assert PairedAt(s, i);
      assert i > 0 ==> !CrlfAt(s, i - 1);
    }
  }

  /** Where the framer sees CR LF, the parser sees the same line end. */
  lemma SameLine(s: Bytes, body: Bytes)
    requires Paired(s) && FindCrlf(s).Some?
    ensures var end: nat := FindCrlf(s).value;
      && StripCr(FirstLine(s + body)) == s[..end]
      && AfterLine(s + body) == s[end + 2..] + body
  {
    hide Paired, Find, FirstLine, AfterLine;
    NoEarlierLineFeed(s);
    var end: nat := FindCrlf(s).value;
    hide FindCrlf;
    var line := s[..end + 1];
    assert s + body == line + [LF] + (s[end + 2..] + body);
    LineEndsAt(line, s[end + 2..] + body);
    assert line[..end] == s[..end];
  }

  lemma PairedAfterLine(s: Bytes)
    requires Paired(s) && FindCrlf(s).Some?
    ensures Paired(s[FindCrlf(s).value + 2..])
  {
    var end: nat := FindCrlf(s).value;
    var t := s[end + 2..];
    forall i: nat | i < |t|
      ensures PairedAt(t, i)
    {
      assert PairedAt(s, end + 2 + i);
      assert PairedAt(s, end + 1);
    }
  }

  /** What is behind a line of a header section: it ends at its first empty line. */
  ghost predicate EndsAtBlank(s: Bytes) {
    if CrlfAt(s, 0) then |s| == 2 else |s| >= 4 && FindBlankLine(s) == Some(|s| - 4)
  }

  lemma BlankBehindLine(s: Bytes, end: nat, t: Bytes)
    requires CrlfAt(s, end) && t == s[end + 2..] && CrlfAt(t, 0) && FindBlankLine(s) == Some(|s| - 4)
    ensures |t| >= 2 && end >= |s| - 4
  {
    hide FindBlankLine;
    assert BlankLineAt(s, end);
  }

  lemma BlankInTail(s: Bytes, k: nat, i: nat)
    requires k <= |s|
    ensures BlankLineAt(s[k..], i) <==> BlankLineAt(s, k + i)
  {
  }

  lemma BlankFurtherOn(s: Bytes, end: nat, t: Bytes)
    requires end + 2 <= |s| - 4 && t == s[end + 2..] && FindBlankLine(s) == Some(|s| - 4)
    ensures FindBlankLine(t) == Some(|t| - 4)
  {
    hide FindBlankLine, BlankLineAt;
    var k: nat, n: nat := end + 2, |t| - 4;
    BlanksInTail(s, k, n);
  }

  lemma BlanksInTail(s: Bytes, k: nat, n: nat)
    requires k + n + 4 == |s| && FindBlankLine(s) == Some(k + n)
    ensures FindBlankLine(s[k..]) == Some(n)
  {
    hide FindBlankLine, BlankLineAt;
    var t := s[k..];
    BlankInTail(s, k, n);
    forall j | 0 <= j < n
      ensures !BlankLineAt(t, j)
    {
      BlankInTail(s, k, j);
    }
    FindBlankLineIs(t, n);
  }

  lemma EndsAtBlankStep(s: Bytes)
    requires Paired(s) && FindBlankLine(s) == Some(|s| - 4) && !CrlfAt(s, 0)
    ensures FindCrlf(s).Some? && 0 < FindCrlf(s).value
    ensures EndsAtBlank(s[FindCrlf(s).value + 2..])
  {
    hide FindBlankLine, FindCrlf;
    assert CrlfAt(s, |s| - 4);
    var end: nat := FindCrlf(s).value;
    var t := s[end + 2..];
    assert end <= |s| - 4;
    if CrlfAt(t, 0) {
      BlankBehindLine(s, end, t);
    } else {
      assert PairedAt(s, |s| - 4);
      hide Paired;
      BlankFurtherOn(s, end, t);
    }
  }

  // ----- the parser takes the rest as the body

  /** The result of reading header lines, with another body. */
  function WithBody(r: Result<(map<Bytes, Bytes>, Bytes), ParseError>, body: Bytes): Result<(map<Bytes, Bytes>,
      Bytes), ParseError> {
    match r case Ok((headers, _)) => Ok((headers, body)) case Err(e) => Err(e)
  }

  lemma {:induction false} HeaderLinesThenBody(s: Bytes, headers: map<Bytes, Bytes>, body: Bytes)
    requires Paired(s) && EndsAtBlank(s)
    ensures ParseHeaders(s + body, headers) == WithBody(ParseHeaders(s, headers), body)
    decreases |s|
  {
    hide FirstLine, AfterLine, StripCr, Trim, Find;
    assert s + [] == s;
    if CrlfAt(s, 0) {
      FindCrlfIs(s, 0);
      SameLine(s, body);
      SameLine(s, []);
      assert s[2..] == [] && [] + body == body;
    } else {
      EndsAtBlankStep(s);
      SameLine(s, body);
      SameLine(s, []);
      var end: nat := FindCrlf(s).value;
      var line, after := s[..end], s[end + 2..];
      assert after + [] == after;
      PairedAfterLine(s);
      if Find(line, COLON).Some? && Lower(Trim(line[..Find(line, COLON).value])) != [] {
        var i: nat := Find(line, COLON).value;
        HeaderLinesThenBody(after, headers[Lower(Trim(line[..i])) := Trim(line[i + 1..])], body);
      }
    }
  }

  lemma EmptyFirstLineFails(head: Bytes)
    requires Paired(head) && CrlfAt(head, 0)
    ensures ParseRequest(head).Err?
  {
    hide FirstLine, AfterLine, StripCr, ParseHeaders, Http11, Http10;
    FindCrlfIs(head, 0);
    SameLine(head, []);
    assert head + [] == head && head[..0] == [];
    NoFields();
  }

  lemma ParseHead(head: Bytes, words: Bytes, after: Bytes, body: Bytes)
    requires head != [] && ParseRequest(head).Ok?
    requires StripCr(FirstLine(head)) == words && StripCr(FirstLine(head + body)) == words
    requires AfterLine(head) == after && AfterLine(head + body) == after + body
    requires ParseHeaders(after + body, map[]) == WithBody(ParseHeaders(after, map[]), body)
    ensures ParseRequest(head + body) == Ok(ParseRequest(head).value.(body := body))
  {
    hide Fields, FirstLine, AfterLine, StripCr, ParseHeaders, Http11, Http10;
  }

  /** A header section that the framer found and let through is parsed in the same way with any
      body behind it, and the body is kept exactly. */
  lemma HeadThenBody(head: Bytes, body: Bytes)
    requires FindBlankLine(head) == Some(|head| - 4) && Paired(head) && ParseRequest(head).Ok?
    ensures ParseRequest(head + body) == Ok(ParseRequest(head).value.(body := body))
    ensures !CrlfAt(head, 0)
  {
    hide ParseRequest, Fields, FirstLine, AfterLine, StripCr, ParseHeaders, Paired, FindCrlf, FindBlankLine,
         EndsAtBlank, WithBody;
    if CrlfAt(head, 0) {
      EmptyFirstLineFails(head);
    }
    EndsAtBlankStep(head);
    SameLine(head, body);
    SameLine(head, []);
    var end: nat := FindCrlf(head).value;
    var after := head[end + 2..];
    assert after + [] == after && head + [] == head;
    PairedAfterLine(head);
    HeaderLinesThenBody(after, map[], body);
    ParseHead(head, head[..end], after, body);
  }

  lemma NoFields()
    ensures Fields([]) == []
  {
  }

  // ----- both see the same framing headers

  /** The values noted are those that the header map holds. */
  ghost predicate Shows(values: seq<Bytes>, name: Bytes, headers: map<Bytes, Bytes>) {
    && (values == [] <==> name !in headers)
    && (values != [] ==> headers[name] == values[|values| - 1])
  }

  ghost predicate Reflects(f: Framing, headers: map<Bytes, Bytes>) {
    Shows(f.lengths, ContentLengthName(), headers) && Shows(f.encodings, TransferEncodingName(), headers)
  }

  lemma NotedIsReflected(f: Framing, headers: map<Bytes, Bytes>, field: (Bytes, Bytes))
    requires Reflects(f, headers)
    ensures Reflects(Noted(f, field), headers[field.0 := field.1])
  {
    assert ContentLengthName() != TransferEncodingName() by {
      assert |ContentLengthName()| != |TransferEncodingName()|;
    }
    hide ContentLengthName, TransferEncodingName;
  }

  /** The parser takes the same name and value from a line. */
  lemma SameField(line: Bytes)
    requires line != [] && SplitLine(line).Some?
    ensures var i: nat := Find(line, COLON).value;
      && Find(line, COLON).Some?
      && SplitLine(line).value == (Lower(Trim(line[..i])), Trim(line[i + 1..]))
      && Lower(Trim(line[..i])) != []
  {
    var i: nat := Find(line, COLON).value;
    TrimIdentity(line[..i]);
  }

  lemma LineIsReflected(s: Bytes, f: Framing, headers: map<Bytes, Bytes>)
    requires Paired(s) && EndsAtBlank(s) && !CrlfAt(s, 0) && Reflects(f, headers) && ReadLines(s, f).Some?
    ensures FindCrlf(s).Some? && FindCrlf(s).value > 0
    ensures var end: nat := FindCrlf(s).value; var after := s[end + 2..];
      && SplitLine(s[..end]).Some?
      && var field := SplitLine(s[..end]).value;
         && Paired(after) && EndsAtBlank(after)
         && ReadLines(s, f) == ReadLines(after, Noted(f, field))
         && ParseHeaders(s, headers) == ParseHeaders(after, headers[field.0 := field.1])
  {
    hide FirstLine, AfterLine, StripCr, Trim, Find, Noted, SplitLine, Reflects, Paired, FindBlankLine;
    assert s + [] == s;
    EndsAtBlankStep(s);
    SameLine(s, []);
    var end: nat := FindCrlf(s).value;
    assert s[end + 2..] + [] == s[end + 2..];
    PairedAfterLine(s);
    SameField(s[..end]);
  }

  lemma {:induction false} LinesAreReflected(s: Bytes, f: Framing, headers: map<Bytes, Bytes>)
    requires Paired(s) && EndsAtBlank(s) && Reflects(f, headers) && ReadLines(s, f).Some?
    ensures ParseHeaders(s, headers).Ok? && Reflects(ReadLines(s, f).value, ParseHeaders(s, headers).value.0)
    decreases |s|
  {
    hide FirstLine, AfterLine, StripCr, Trim, Find, Noted, SplitLine, Reflects, Paired, FindBlankLine;
    if CrlfAt(s, 0) {
      assert s + [] == s;
      FindCrlfIs(s, 0);
      SameLine(s, []);
    } else {
      hide ReadLines, ParseHeaders, EndsAtBlank;
      LineIsReflected(s, f, headers);
      var end: nat := FindCrlf(s).value;
      var field := SplitLine(s[..end]).value;
      NotedIsReflected(f, headers, field);
      LinesAreReflected(s[end + 2..], Noted(f, field), headers[field.0 := field.1]);
    }
  }

  lemma ReadHeadStep(head: Bytes, end: nat)
    requires FindCrlf(head) == Some(end) && end > 0
    ensures ReadHead(head) == ReadLines(head[end + 2..], NO_FRAMING)
  {
    hide ReadLines;
  }

  lemma HeadersOfRequest(head: Bytes, after: Bytes)
    requires ParseRequest(head).Ok? && AfterLine(head) == after
    ensures ParseHeaders(after, map[]).Ok? && ParseRequest(head).value.headers == ParseHeaders(after, map[]).value.0
  {
    hide Fields, FirstLine, AfterLine, StripCr, ParseHeaders, Http11, Http10;
  }

  lemma NothingReflected()
    ensures Reflects(NO_FRAMING, map[])
  {
    hide ContentLengthName, TransferEncodingName;
  }

  lemma HeadIsReflected(head: Bytes)
    requires FindBlankLine(head) == Some(|head| - 4) && Paired(head) && ParseRequest(head).Ok? && ReadHead(head).Some?
    ensures Reflects(ReadHead(head).value, ParseRequest(head).value.headers)
  {
    hide ParseRequest, ReadHead, FirstLine, AfterLine, StripCr, ParseHeaders, ReadLines, Reflects, Paired, FindCrlf,
         FindBlankLine, EndsAtBlank;
    HeadThenBody(head, []);
    EndsAtBlankStep(head);
    SameLine(head, []);
    var end: nat := FindCrlf(head).value;
    var after := head[end + 2..];
    assert head + [] == head && after + [] == after;
    PairedAfterLine(head);
    ReadHeadStep(head, end);
    HeadersOfRequest(head, after);
    NothingReflected();
    LinesAreReflected(after, NO_FRAMING, map[]);
  }

  /** The body length that the headers of a request announce, in the parser's view of them. */
  ghost predicate Announces(headers: map<Bytes, Bytes>, chunked: bool, length: nat) {
    if chunked then
      && TransferEncodingName() in headers && IsChunkedCoding(headers[TransferEncodingName()])
      && ContentLengthName() !in headers
    else
      && TransferEncodingName() !in headers
      && (if ContentLengthName() in headers
          then SizeOf(Trim(headers[ContentLengthName()]), Decimal) == Some(length) else length == 0)
  }

  lemma ConclusionAnnounced(f: Framing, headers: map<Bytes, Bytes>)
    requires Reflects(f, headers) && Conclusion(f).Some?
    ensures var a := Conclusion(f).value;
            Announces(headers, a.chunked, if a.contentLength.Some? then a.contentLength.value else 0)
  {
    hide ContentLengthName, TransferEncodingName, IsChunkedCoding, SizeOf, Trim;
  }

  lemma HeadOfBuffer(buffered: Bytes)
    requires FindBlankLine(buffered).Some?
    ensures var start: nat := FindBlankLine(buffered).value + 4;
            start <= |buffered| && FindBlankLine(buffered[..start]) == Some(start - 4)
  {
    var start: nat := FindBlankLine(buffered).value + 4;
    var head := buffered[..start];
    forall j | 0 <= j < start - 4
      ensures !BlankLineAt(head, j)
    {
      assert !BlankLineAt(buffered, j);
    }
    FindBlankLineIs(head, start - 4);
  }

  /** The body that a complete frame stands for. */
  function BodyIn(buffered: Bytes, start: nat, frame: Frame): Bytes
    requires frame.Framed? && start <= frame.consumed <= |buffered|
  {
    if !frame.chunked then buffered[start..frame.consumed]
    else
      match Decoding(buffered[start..]) case DecodeComplete(body, _) => body case _ => []
  }

  lemma FrameParts(buffered: Bytes, limit: nat) returns (start: nat, request: Request, analysis: Analysis)
    requires NextFrame(buffered, limit).Framed?
    ensures 4 <= start <= |buffered| && start <= limit && FindBlankLine(buffered) == Some(start - 4)
    ensures Analyze(buffered[..start]) == Some(analysis) && ParseRequest(buffered[..start]) == Ok(request)
    ensures NextFrame(buffered, limit) == BodyFrame(buffered, start, request, analysis, limit)
  {
    hide Analyze, ParseRequest, BodyFrame, FindBlankLine;
    start := FindBlankLine(buffered).value + 4;
    request := ParseRequest(buffered[..start]).value;
    analysis := Analyze(buffered[..start]).value;
  }

  lemma FrameOfBody(buffered: Bytes, start: nat, request: Request, analysis: Analysis, limit: nat)
    requires start <= |buffered| && start <= limit && BodyFrame(buffered, start, request, analysis, limit).Framed?
    ensures var frame := BodyFrame(buffered, start, request, analysis, limit);
      && start <= frame.consumed <= |buffered| && frame.request == request && frame.chunked == analysis.chunked
      && frame.rawRequest == buffered[..start] + BodyIn(buffered, start, frame)
      && (frame.chunked ==>
            && Decoding(buffered[start..]).DecodeComplete?
            && frame.consumed == start + Decoding(buffered[start..]).consumed)
      && (!frame.chunked ==>
            |BodyIn(buffered, start, frame)|
            == if analysis.contentLength.Some? then analysis.contentLength.value else 0)
  {
    hide Decoding;
    var n: nat := BodyFrame(buffered, start, request, analysis, limit).consumed;
    if !analysis.chunked {
      assert buffered[..n] == buffered[..start] + buffered[start..n];
    }
  }

  lemma AnalysisParts(head: Bytes)
    requires Analyze(head).Some?
    ensures Paired(head) && ReadHead(head).Some? && Conclusion(ReadHead(head).value) == Analyze(head)
  {
    hide Paired, NoOtherControls, ReadHead, Conclusion;
  }

  lemma WrappedFrame(buffered: Bytes, start: nat, analysis: Analysis)
    requires 4 <= start <= |buffered| && FindBlankLine(buffered) == Some(start - 4)
    requires Analyze(buffered[..start]) == Some(analysis)
    ensures Wrapped(buffered) <==> analysis.chunked && Wraps(buffered[start..])
  {
    hide FindBlankLine, Analyze, WrapsFrom;
  }

  /** For every complete frame: what is handed on is the header section and the decoded body;
      the parser accepts it and finds exactly that body; and the headers that it finds announce
      the same framing that the framer used. A decoded body is what the chunks mean if and only
      if no sum wraps. */
  lemma FramerAndParserAgree(buffered: Bytes, limit: nat)
    requires NextFrame(buffered, limit).Framed?
    ensures var frame := NextFrame(buffered, limit); var start: nat := FindBlankLine(buffered).value + 4;
      && start <= frame.consumed <= |buffered|
      && frame.rawRequest == buffered[..start] + BodyIn(buffered, start, frame)
      && ParseRequest(frame.rawRequest) == Ok(frame.request.(body := BodyIn(buffered, start, frame)))
      && Announces(frame.request.headers, frame.chunked, |BodyIn(buffered, start, frame)|)
      && (frame.chunked && |buffered| <= MAX_STRING ==>
            (Chunks(buffered[start..], false) == Complete(BodyIn(buffered, start, frame), buffered[frame.consumed..])
             <==> !Wrapped(buffered)))
  {
    hide ParseRequest, Analyze, ReadHead, Conclusion, Chunks, Announces, Paired, FindBlankLine, NextFrame, BodyFrame,
         Decoding, Wrapped, BodyIn;
    var start, request, analysis := FrameParts(buffered, limit);
    FrameOfBody(buffered, start, request, analysis, limit);
    var frame, head := NextFrame(buffered, limit), buffered[..start];
    AnalysisParts(head);
    HeadOfBuffer(buffered);
    HeadIsReflected(head);
    ConclusionAnnounced(ReadHead(head).value, request.headers);
    HeadThenBody(head, BodyIn(buffered, start, frame));
    if frame.chunked {
      var announced := if analysis.contentLength.Some? then analysis.contentLength.value else 0;
      ChunkedLength(request.headers, announced, |BodyIn(buffered, start, frame)|);
      if |buffered| <= MAX_STRING {
        WrappedFrame(buffered, start, analysis);
        ChunksOfFrame(buffered, start, frame);
      }
    }
  }

  lemma ChunksOfFrame(buffered: Bytes, start: nat, frame: Frame)
    requires frame.Framed? && frame.chunked && start <= frame.consumed <= |buffered| <= MAX_STRING
    requires Decoding(buffered[start..]).DecodeComplete?
        && frame.consumed == start + Decoding(buffered[start..]).consumed
    ensures Chunks(buffered[start..], false) == Complete(BodyIn(buffered, start, frame), buffered[frame.consumed..])
            <==> !Wraps(buffered[start..])
    ensures Wraps(buffered[start..]) <==> Chunks(buffered[start..], false).Incomplete?
  {
    hide Chunks, Decoding, WrapsFrom;
    var encoded := buffered[start..];
    DecodesExactly(encoded);
    if !Chunks(encoded, false).Incomplete? {
      Unwrapped(encoded);
    }
    if Chunks(encoded, false).Complete? {
      ChunksLeaveSuffix(encoded, false);
      var rest := Chunks(encoded, false).rest;
      assert encoded[|encoded| - |rest|..] == buffered[|buffered| - |rest|..];
    }
  }

  lemma ChunkedLength(headers: map<Bytes, Bytes>, any: nat, length: nat)
    requires Announces(headers, true, any)
    ensures Announces(headers, true, length)
  {
  }

  // ----- a frame depends on its own octets only

  lemma FindCrlfInFront(s: Bytes, n: nat)
    requires FindCrlf(s).Some? && FindCrlf(s).value + 2 <= n <= |s|
    ensures FindCrlf(s[..n]) == FindCrlf(s)
  {
    var end: nat := FindCrlf(s).value;
    assert forall j :: 0 <= j < end ==> CrlfAt(s[..n], j) ==> CrlfAt(s, j);
    FindCrlfIs(s[..n], end);
  }

  lemma {:induction false} TrailersInFront(s: Bytes)
    requires Trailers(s, false).Complete?
    ensures |Trailers(s, false).rest| <= |s|
    ensures var r := Trailers(s, false); Trailers(s[..|s| - |r.rest|], false) == Complete(r.body, [])
    decreases |s|
  {
    hide FindCrlf, Trailers;
    TrailersAt(s, 0);
    assert s[0..] == s;
    TrailersLeaveSuffix(s, false);
    var end: nat := FindCrlf(s).value;
    var n := |s| - |Trailers(s, false).rest|;
    if end == 0 {
      FindCrlfInFront(s, n);
      assert s[..n][2..] == [];
    } else {
      var after := s[end + 2..];
      TrailersLeaveSuffix(after, false);
      TrailersInFront(after);
      FindCrlfInFront(s, n);
      assert s[..n][end + 2..] == after[..n - (end + 2)];
    }
    TrailersAt(s[..n], 0);
    assert s[..n][0..] == s[..n];
  }

  lemma FrontInFront(s: Bytes, n: nat)
    requires FrontOf(s, false).Last? || FrontOf(s, false).Chunk?
    requires |s| - |FrontOf(s, false).after| <= n <= |s|
    ensures FrontOf(s[..n], false)
        == FrontOf(s, false).(after := FrontOf(s, false).after[..n - (|s| - |FrontOf(s, false).after|)])
  {
    hide FindCrlf, SizeOn;
    var end: nat := FindCrlf(s).value;
    FindCrlfInFront(s, n);
    var t := s[..n];
    assert t[..end] == s[..end];
    assert t[end + 2..] == s[end + 2..n];
    assert s[end + 2..n] == s[end + 2..][..n - (end + 2)];
    var size: nat := SizeOn(s[..end]).value;
    SlicesOfFront(s[end + 2..], n - (end + 2), size);
  }

  lemma SlicesOfFront(s: Bytes, n: nat, size: nat)
    requires n <= |s|
    ensures size + 2 <= n ==>
            && s[..n][..size] == s[..size]
            && s[..n][size..size + 2] == s[size..size + 2]
            && s[..n][size + 2..] == s[size + 2..][..n - (size + 2)]
  {
  }

  lemma {:induction false} ChunksInFront(s: Bytes)
    requires Chunks(s, false).Complete?
    ensures |Chunks(s, false).rest| <= |s|
    ensures var r := Chunks(s, false); Chunks(s[..|s| - |r.rest|], false) == Complete(r.body, [])
    decreases |s|
  {
    hide FrontOf, Trailers;
    ChunksLeaveSuffix(s, false);
    var r := Chunks(s, false);
    var n := |s| - |r.rest|;
    var after := FrontOf(s, false).after;
    if FrontOf(s, false).Last? {
      TrailersLeaveSuffix(after, false);
      TrailersInFront(after);
      FrontInFront(s, n);
    } else {
      ChunksInFront(after);
      FrontInFront(s, n);
    }
  }

  lemma DecodingInFront(encoded: Bytes)
    requires |encoded| <= MAX_STRING && !Wraps(encoded) && Decoding(encoded).DecodeComplete?
    ensures Decoding(encoded[..Decoding(encoded).consumed]) == Decoding(encoded)
  {
    hide Chunks, Decoding, WrapsFrom;
    UnwrappedDecoding(encoded);
    var n := Decoding(encoded).consumed;
    ChunksInFront(encoded);
    Unwrapped(encoded[..n]);
    UnwrappedDecoding(encoded[..n]);
  }

  lemma ChunkedFrameInFront(buffered: Bytes, start: nat, request: Request, limit: nat)
    requires start <= |buffered| <= MAX_STRING && start <= limit
    requires ChunkedFrame(buffered, start, request, limit).Framed? && !Wraps(buffered[start..])
    ensures var frame := ChunkedFrame(buffered, start, request, limit);
      && start <= frame.consumed <= |buffered|
      && ChunkedFrame(buffered[..frame.consumed], start, request, limit) == frame
  {
    hide Decoding, WrapsFrom;
    DecodingInFront(buffered[start..]);
    var n: nat := ChunkedFrame(buffered, start, request, limit).consumed;
    assert buffered[..n][start..] == buffered[start..][..n - start];
    assert buffered[..n][..start] == buffered[..start];
  }

  lemma PlainFrameInFront(buffered: Bytes, start: nat, request: Request, size: nat, limit: nat)
    requires start <= |buffered| && start <= limit && PlainFrame(buffered, start, request, size, limit).Framed?
    ensures var frame := PlainFrame(buffered, start, request, size, limit);
      && start <= frame.consumed <= |buffered|
      && PlainFrame(buffered[..frame.consumed], start, request, size, limit) == frame
  {
    assert buffered[..start + size][..start + size] == buffered[..start + size];
  }

  lemma UnwrappedFrameInFront(buffered: Bytes, limit: nat)
    requires NextFrame(buffered, limit).Framed? && |buffered| <= MAX_STRING && !Wrapped(buffered)
    ensures 4 <= NextFrame(buffered, limit).consumed <= |buffered|
    ensures NextFrame(buffered[..NextFrame(buffered, limit).consumed], limit) == NextFrame(buffered, limit)
  {
    hide Analyze, ParseRequest, ChunkedFrame, PlainFrame, FindBlankLine, WrapsFrom;
    FrameFits(buffered, limit);
    var frame := NextFrame(buffered, limit);
    var start: nat := FindBlankLine(buffered).value + 4;
    var request := ParseRequest(buffered[..start]).value;
    var analysis := Analyze(buffered[..start]).value;
    if analysis.chunked {
      ChunkedFrameInFront(buffered, start, request, limit);
    } else {
      var size := if analysis.contentLength.Some? then analysis.contentLength.value else 0;
      PlainFrameInFront(buffered, start, request, size, limit);
    }
    BlankLineInFront(buffered, frame.consumed);
    assert buffered[..frame.consumed][..start] == buffered[..start];
  }

  /** The octets that a frame consumes are one complete message by themselves, and frame in the
      same way, if and only if no sum wraps or they are all of the buffer. Together with
      stability: a buffer starts with a complete message if and only if the octets of that
      message say so. */
  lemma FrameIsItsMessage(buffered: Bytes, limit: nat)
    requires NextFrame(buffered, limit).Framed? && |buffered| <= MAX_STRING
    ensures 4 <= NextFrame(buffered, limit).consumed <= |buffered|
    ensures var frame := NextFrame(buffered, limit); var m := buffered[..frame.consumed];
      && (NextFrame(m, limit) == frame <==> !Wrapped(buffered) || frame.consumed == |buffered|)
      && (NextFrame(m, limit) == frame ==> IsMessage(m, limit))
  {
    hide NextFrame, Wrapped;
    FrameFits(buffered, limit);
    var n := NextFrame(buffered, limit).consumed;
    var m, behind := buffered[..n], buffered[n..];
    assert m + behind == buffered;
    if !Wrapped(buffered) {
      UnwrappedFrameInFront(buffered, limit);
    } else if behind == [] {
      assert m == buffered;
    } else if NextFrame(m, limit) == NextFrame(buffered, limit) {
      FramingStable(m, behind, limit);
      if !Wrapped(m) {
        StaysUnwrapped(m, behind, limit);
      }
    }
  }

  lemma BlankLineInFront(s: Bytes, n: nat)
    requires FindBlankLine(s).Some? && FindBlankLine(s).value + 4 <= n <= |s|
    ensures FindBlankLine(s[..n]) == FindBlankLine(s)
  {
    var i: nat := FindBlankLine(s).value;
    assert forall j :: 0 <= j < i ==> BlankLineAt(s[..n], j) ==> BlankLineAt(s, j);
    FindBlankLineIs(s[..n], i);
  }
}
