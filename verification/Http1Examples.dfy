/** Header sections with one field, which the framer and the parser accept: a plain and a chunked
    request, so that what is said of complete messages is said of something. */
module Http1Examples {
  import opened Wrappers
  import opened Octets
  import opened RequestText
  import opened ChunkedBody
  import opened ChunkedDecoding
  import opened Http1Framing
  import opened Http1Agreement
  import opened Http1Arrival
  import opened Http1Conversation

  predicate Visible(s: Bytes) {
    forall i :: 0 <= i < |s| ==> !IsControl(s[i])
  }

  function HeadWith(line: Bytes, field: Bytes): Bytes {
    line + CRLF + (field + CRLF + CRLF)
  }

  lemma LineEnds(line: Bytes, field: Bytes, i: int)
    requires Visible(line) && Visible(field)
    ensures var a, b := |line|, |line| + 2 + |field|;
      && (CrlfAt(HeadWith(line, field), i) <==> i == a || i == b || i == b + 2)
      && (0 <= i < |HeadWith(line, field)| ==> PairedAt(HeadWith(line, field), i))
  {
    var head, a, b := HeadWith(line, field), |line|, |line| + 2 + |field|;
    assert |head| == b + 4 && head[a] == CR && head[a + 1] == LF;
    assert head[b] == CR && head[b + 1] == LF && head[b + 2] == CR && head[b + 3] == LF;
    assert 0 <= i < a ==> head[i] == line[i];
    assert a + 2 <= i < b ==> head[i] == field[i - (a + 2)];
    assert 0 <= i + 1 < a ==> head[i + 1] == line[i + 1];
    assert a + 2 <= i + 1 < b ==> head[i + 1] == field[i + 1 - (a + 2)];
  }

  lemma HeadIsFound(line: Bytes, field: Bytes)
    requires Visible(line) && Visible(field) && line != [] && field != []
    ensures var head := HeadWith(line, field);
      && FindBlankLine(head) == Some(|head| - 4)
      && Paired(head) && NoOtherControls(head)
      && FindCrlf(head) == Some(|line|) && head[|line| + 2..] == field + CRLF + CRLF
  {
    var head := HeadWith(line, field);
    hide FindBlankLine, FindCrlf;
    forall i
      ensures CrlfAt(head, i) <==> i == |line| || i == |head| - 4 || i == |head| - 2
      ensures 0 <= i < |head| ==> PairedAt(head, i)
    {
      LineEnds(line, field, i);
    }
    FindBlankLineIs(head, |head| - 4);
    FindCrlfIs(head, |line|);
    forall i | 0 <= i < |head|
      ensures head[i] == CR || head[i] == LF || head[i] == TAB || !IsControl(head[i])
    {
      assert i < |line| ==> head[i] == line[i];
      assert |line| + 2 <= i < |head| - 4 ==> head[i] == field[i - (|line| + 2)];
    }
  }

  lemma FieldIsRead(field: Bytes, name: Bytes, value: Bytes)
    requires Visible(field) && field != [] && SplitLine(field) == Some((name, value))
    ensures ReadLines(field + CRLF + CRLF, NO_FRAMING) == Some(Noted(NO_FRAMING, (name, value)))
  {
    hide SplitLine, Noted;
    var s := field + CRLF + CRLF;
    assert forall i :: 0 <= i < |field| ==> s[i] == field[i];
    FindCrlfIs(s, |field|);
    assert s[..|field|] == field && s[|field| + 2..] == CRLF;
    FindCrlfIs(CRLF, 0);
  }

  lemma FieldIsParsed(field: Bytes, name: Bytes, value: Bytes)
    requires Visible(field) && field != [] && SplitLine(field) == Some((name, value))
    ensures ParseHeaders(field + CRLF + CRLF, map[]) == Ok((map[name := value], []))
  {
    hide SplitLine, Find, FirstLine, AfterLine, Trim, Lower;
    SameField(field);
    LineIsRead(field, CRLF);
    BlankLineReadBack([], map[name := value]);
    assert CRLF + [] == CRLF && field + CRLF + CRLF == field + CRLF + CRLF;
  }

  lemma LineIsRead(line: Bytes, rest: Bytes)
    requires Visible(line)
    ensures StripCr(FirstLine(line + CRLF + rest)) == line && AfterLine(line + CRLF + rest) == rest
    ensures line + CRLF + rest != []
  {
    hide FirstLine, AfterLine;
    assert line + CRLF + rest == (line + [CR]) + [LF] + rest;
    LineEndsAt(line + [CR], rest);
    assert (line + [CR])[..|line|] == line;
  }

  lemma HeadIsAnalyzed(line: Bytes, field: Bytes, name: Bytes, value: Bytes)
    requires Visible(line) && Visible(field) && line != [] && field != [] && SplitLine(field) == Some((name, value))
    ensures Analyze(HeadWith(line, field)) == Conclusion(Noted(NO_FRAMING, (name, value)))
  {
    hide SplitLine, Conclusion, Noted, ReadLines, FindBlankLine, FindCrlf, HeadWith, Paired, NoOtherControls, Visible;
    HeadIsFound(line, field);
    FieldIsRead(field, name, value);
  }

  lemma HeadIsParsed(line: Bytes, field: Bytes, verb: Bytes, target: Bytes, name: Bytes, value: Bytes)
    requires Visible(line) && Visible(field) && field != []
    requires Fields(line) == [verb, target, Http11()] && SplitLine(field) == Some((name, value))
    ensures ParseRequest(HeadWith(line, field)) == Ok(Request(verb, target, Http11(), map[name := value], []))
  {
    hide Fields, Http11, SplitLine, ParseHeaders, FirstLine, AfterLine, StripCr, Visible, Http10;
    FieldIsParsed(field, name, value);
    LineIsRead(line, field + CRLF + CRLF);
  }

  /** Such a header section is accepted, and the framer and the parser see its field. */
  lemma OneFieldHead(line: Bytes, field: Bytes, verb: Bytes, target: Bytes, name: Bytes, value: Bytes)
    requires Visible(line) && Visible(field) && line != [] && field != []
    requires Fields(line) == [verb, target, Http11()] && SplitLine(field) == Some((name, value))
    ensures var head := HeadWith(line, field);
      && FindBlankLine(head) == Some(|head| - 4)
      && Analyze(head) == Conclusion(Noted(NO_FRAMING, (name, value)))
      && ParseRequest(head) == Ok(Request(verb, target, Http11(), map[name := value], []))
  {
    hide Fields, Http11, SplitLine, Conclusion, Noted, FindBlankLine, FindCrlf, Analyze, ParseRequest, HeadWith,
         Visible, Paired, NoOtherControls;
    HeadIsFound(line, field);
    HeadIsAnalyzed(line, field, name, value);
    HeadIsParsed(line, field, verb, target, name, value);
  }

  // ----- the two examples

  function Line(): Bytes {
    [65, SPACE, 66, SPACE] + Http11()
  }

  lemma LineIsVisible()
    ensures Visible(Line()) && IsWord(Http11())
  {
    assert Http11() == [72, 84, 84, 80, 47, 49, 46, 49];
  }

  lemma LineHasThreeWords()
    ensures Fields(Line()) == [[65], [66], Http11()]
  {
    hide Fields, Http11, WordLength;
    LineIsVisible();
    var a: Bytes, b: Bytes, rest: Bytes := [65], [66], [66, SPACE] + Http11();
    OneWord(a);
    OneWord(b);
    OneWord(Http11());
    assert Line() == a + [SPACE] + rest && rest == b + [SPACE] + Http11();
    WordsAround(a, rest);
    WordsAround(b, Http11());
    assert [a] + ([b] + [Http11()]) == [a, b, Http11()];
  }

  lemma FieldIsSplit(name: Bytes, value: Bytes)
    requires IsFieldName(name) && Visible(value) && value != [] && !IsSpace(value[0]) && !IsSpace(value[|value| - 1])
    ensures Visible(name + [COLON] + value) && SplitLine(name + [COLON] + value) == Some((name, value))
  {
    var field := name + [COLON] + value;
    FieldNameKept(name);
    assert field[..|name|] == name && field[|name| + 1..] == value;
    FindIs(field, COLON, |name|);
    TrimIdentity(value);
    TrimIdentity(name);
    forall i | 0 <= i < |field|
      ensures !IsControl(field[i])
    {
      assert i < |name| ==> field[i] == name[i] && IsTokenChar(name[i]);
      assert i > |name| ==> field[i] == value[i - |name| - 1];
    }
  }

  lemma LengthIsFieldName()
    ensures IsFieldName(ContentLengthName())
  {
    assert ContentLengthName() == [99, 111, 110, 116, 101, 110, 116, 45, 108, 101, 110, 103, 116, 104];
  }

  lemma EncodingIsFieldName()
    ensures IsFieldName(TransferEncodingName())
  {
    assert TransferEncodingName() == [116, 114, 97, 110, 115, 102, 101, 114, 45, 101, 110, 99, 111, 100, 105, 110, 103];
  }

  lemma TwoNames()
    ensures |ContentLengthName()| == 14 && |TransferEncodingName()| == 17
  {
  }

  /** A head with the request line of the examples. */
  function ExampleHead(name: Bytes, value: Bytes): Bytes {
    HeadWith(Line(), name + [COLON] + value)
  }

  function ExampleRequest(name: Bytes, value: Bytes): Request {
    Request([65], [66], Http11(), map[name := value], [])
  }

  lemma ExampleIsRead(name: Bytes, value: Bytes)
    requires IsFieldName(name) && Visible(value) && value != [] && !IsSpace(value[0]) && !IsSpace(value[|value| - 1])
    ensures var head := ExampleHead(name, value);
      && |head| == |name| + |value| + 19
      && FindBlankLine(head) == Some(|head| - 4)
      && Analyze(head) == Conclusion(Noted(NO_FRAMING, (name, value)))
      && ParseRequest(head) == Ok(ExampleRequest(name, value))
  {
    LineHasLength();
    hide Fields, SplitLine, IsFieldName, Conclusion, Noted, Analyze, ParseRequest, FindBlankLine, Line, Http11;
    LineIsVisible();
    LineHasThreeWords();
    FieldIsSplit(name, value);
    OneFieldHead(Line(), name + [COLON] + value, [65], [66], name, value);
  }

  lemma LineHasLength()
    ensures |Line()| == 12
  {
  }

  lemma OneIsOne()
    ensures Conclusion(Noted(NO_FRAMING, (ContentLengthName(), [49]))) == Some(Analysis(false, Some(1)))
  {
    var one: Bytes := [49];
    TrimIdentity(one);
    assert one[..0] == [] && PositionalValue([], Decimal) == 0;
    assert PositionalValue(one, Decimal) == 1;
  }

  /** A request with one octet of body: its header section waits for it, and with it the request
      is complete. */
  lemma PlainExample(octet: Byte, limit: nat)
    requires limit >= 35
    ensures var head, request := ExampleHead(ContentLengthName(), [49]), ExampleRequest(ContentLengthName(), [49]);
      && NextFrame(head, limit) == HeaderComplete(request, false, Some(1), |head|, true)
      && NextFrame(head + [octet], limit) == Framed(request, false, Some(1), |head| + 1, head + [octet])
  {
    hide Analyze, ParseRequest, FindBlankLine, ExampleHead, ExampleRequest, IsFieldName, Conclusion, Noted,
         ContentLengthName, TransferEncodingName;
    TwoNames();
    LengthIsFieldName();
    ExampleIsRead(ContentLengthName(), [49]);
    OneIsOne();
    var head := ExampleHead(ContentLengthName(), [49]);
    FindBlankLineStable(head, [octet]);
    assert head[..|head|] == head;
    assert (head + [octet])[..|head|] == head && (head + [octet])[..|head| + 1] == head + [octet];
  }

  lemma ChunkedIsChunked()
    ensures Conclusion(Noted(NO_FRAMING, (TransferEncodingName(), Ascii("chunked")))) == Some(Analysis(true, None))
  {
    TwoNames();
    assert Ascii("chunked") == [99, 104, 117, 110, 107, 101, 100];
    ChunkedIsOneItem(Ascii("chunked"));
    hide ContentLengthName, TransferEncodingName, Items, Lower;
  }

  lemma ChunkedIsVisible()
    ensures var value := Ascii("chunked"); Visible(value) && !IsSpace(value[0]) && !IsSpace(value[|value| - 1])
  {
    assert Ascii("chunked") == [99, 104, 117, 110, 107, 101, 100];
  }

  lemma ChunkedIsOneItem(value: Bytes)
    requires value == [99, 104, 117, 110, 107, 101, 100]
    ensures Items(value) == [value] && Lower(value) == value
  {
    TrimIdentity(value);
    assert COMMA !in value;
  }

  /** A chunked request: its header section waits for the body, and with the encoding of any
      chunks that fits the request is complete. */
  lemma ChunkedExample(chunks: seq<Bytes>, limit: nat)
    requires limit >= 43 && Countable(chunks)
    requires |ExampleHead(TransferEncodingName(), Ascii("chunked")) + Encoded(chunks)| <= MAX_STRING
    ensures var head, request := ExampleHead(TransferEncodingName(), Ascii("chunked")),
                                 ExampleRequest(TransferEncodingName(), Ascii("chunked"));
      var all := head + Encoded(chunks);
      && NextFrame(head, limit) == HeaderComplete(request, true, None, |head|, true)
      && ChunkedHead(head, limit) == Some((request, |head|))
      && (|all| <= limit ==> NextFrame(all, limit) == Framed(request, true, None, |all|, head + Concat(chunks)))
  {
    hide ExampleHead, ExampleRequest, TransferEncodingName, Analyze, ParseRequest, FindBlankLine, IsFieldName,
         Conclusion, Noted, ChunkedHead, NextFrame, Encoded, Chunks, Visible, Ascii;
    TwoNames();
    EncodingIsFieldName();
    ChunkedIsVisible();
    ExampleIsRead(TransferEncodingName(), Ascii("chunked"));
    ChunkedIsChunked();
    var head, request := ExampleHead(TransferEncodingName(), Ascii("chunked")),
                         ExampleRequest(TransferEncodingName(), Ascii("chunked"));
    EncodedIsFramed(head, request, chunks, limit);
  }

  lemma EncodedIsFramed(head: Bytes, request: Request, chunks: seq<Bytes>, limit: nat)
    requires 4 <= |head| <= limit && FindBlankLine(head) == Some(|head| - 4) && Countable(chunks)
    requires |head + Encoded(chunks)| <= MAX_STRING
    requires Analyze(head) == Some(Analysis(true, None)) && ParseRequest(head) == Ok(request)
    ensures ChunkedHead(head, limit) == Some((request, |head|))
    ensures NextFrame(head, limit) == HeaderComplete(request, true, None, |head|, true)
    ensures var all := head + Encoded(chunks);
            |all| <= limit ==> NextFrame(all, limit) == Framed(request, true, None, |all|, head + Concat(chunks))
  {
    hide Analyze, ParseRequest, FindBlankLine, ChunkedHead, NextFrame, Encoded, Chunks, ChunkedFrame, WrapsFrom;
    var tail := Encoded(chunks);
    assert head[..|head|] == head;
    HeadInParts(head, limit, request, |head|);
    HeadWaits(head, limit, request);
    ChunkedHeadKept(head, tail, limit);
    HeadOfChunked(head + tail, limit, request, |head|);
    EncodeUndone(chunks, []);
    assert tail + [] == tail && (head + tail)[|head|..] == tail && (head + tail)[..|head|] == head;
    Unwrapped(tail);
    ChunkedFrameByChunks(head + tail, |head|, request, limit);
  }

  lemma NothingEncoded()
    ensures |Encoded([])| == 5
  {
  }

  /** With a limit of 48 octets the chunked example with one octet of body is served when the
      header section comes first, and refused when everything comes at once. */
  lemma TimingExample(octet: Byte)
    ensures var head := ExampleHead(TransferEncodingName(), Ascii("chunked")); var all := head + Encoded([[octet]]);
      |head| == 43 && ServedSometimes(all, 48) && Arrive([], [all], 48) == TurnedAway(400) && !Timeless(all, 48)
  {
    hide ExampleHead, ExampleRequest, TransferEncodingName, Analyze, ParseRequest, FindBlankLine, IsFieldName,
         Conclusion, Noted, ChunkedHead, NextFrame, Encoded, Chunks, Visible, Ascii, Arrive, ServedSometimes,
         Timeless;
    TwoNames();
    EncodingIsFieldName();
    ChunkedIsVisible();
    ExampleIsRead(TransferEncodingName(), Ascii("chunked"));
    NothingEncoded();
    ChunkedExample([], 48);
    OneOctetTooMany(ExampleHead(TransferEncodingName(), Ascii("chunked")),
                    ExampleRequest(TransferEncodingName(), Ascii("chunked")), octet);
  }

  /** And with a limit that holds it, the chunked example with a size that takes the cursor back,
      and any chunks behind that: which request it is, and whether it is one, depends on the
      timing. */
  lemma WrapExample(chunks: seq<Bytes>, octet: Byte, limit: nat)
    requires Countable(chunks) && |Encoded(chunks)| + 62 <= limit < MAX_STRING
    ensures var head := ExampleHead(TransferEncodingName(), Ascii("chunked"));
      var message := head + (BackLine() + Encoded(chunks));
      ServedSometimes(message, limit) && !AlwaysAlike(message + [octet], limit) && !Timeless(message, limit)
  {
    hide ExampleHead, ExampleRequest, TransferEncodingName, Analyze, ParseRequest, FindBlankLine, IsFieldName,
         Conclusion, Noted, ChunkedHead, NextFrame, Encoded, Chunks, Visible, Ascii, Arrive, Timeless, AlwaysAlike,
         BackLine;
    TwoNames();
    EncodingIsFieldName();
    ChunkedIsVisible();
    ExampleIsRead(TransferEncodingName(), Ascii("chunked"));
    NothingEncoded();
    ChunkedExample([], limit);
    BackLineLength();
    var head, request := ExampleHead(TransferEncodingName(), Ascii("chunked")),
                         ExampleRequest(TransferEncodingName(), Ascii("chunked"));
    var message := head + (BackLine() + Encoded(chunks));
    WrapDependsOnTiming(head, request, chunks, [octet], limit);
    WrapIsServed(head, request, chunks, [], limit);
    assert message + [] == message;
    ConcatOne(message);
  }

  lemma BackLineLength()
    ensures |BackLine()| <= 18
  {
    hide Digits;
    SizeInHex(SIZE_MAX - 1);
  }

  // ----- a connection that is kept alive

  function ChunkedMessage(chunks: seq<Bytes>): Bytes {
    ExampleHead(TransferEncodingName(), Ascii("chunked")) + Encoded(chunks)
  }

  function ChunkedRequest(chunks: seq<Bytes>): Request {
    ExampleRequest(TransferEncodingName(), Ascii("chunked")).(body := Concat(chunks))
  }

  /** The encoding of any chunks makes a clean message of the example. */
  lemma MessageIsClean(chunks: seq<Bytes>, limit: nat)
    requires Countable(chunks) && |ChunkedMessage(chunks)| <= limit && |ChunkedMessage(chunks)| <= MAX_STRING
    ensures IsCleanMessage(ChunkedMessage(chunks), limit)
    ensures RequestOf(ChunkedMessage(chunks), limit) == ChunkedRequest(chunks)
  {
    hide ExampleHead, ExampleRequest, TransferEncodingName, Analyze, ParseRequest, FindBlankLine, IsFieldName,
         Conclusion, Noted, ChunkedHead, NextFrame, Encoded, Chunks, Visible, Ascii, Announces, Decoding, Wrapped,
         Concat;
    TwoNames();
    EncodingIsFieldName();
    ChunkedIsVisible();
    ExampleIsRead(TransferEncodingName(), Ascii("chunked"));
    ChunkedExample(chunks, limit);
    var head, tail := ExampleHead(TransferEncodingName(), Ascii("chunked")), Encoded(chunks);
    ChunkedHeadKept(head, tail, limit);
    assert (head + tail)[|head|..] == tail && tail + [] == tail;
    EncodeUndone(chunks, []);
    FramerAndParserAgree(head + tail, limit);
    HeadOfFrame(head + tail, limit);
    assert (head + tail)[..|head|] == head;
    SameTail(head, Concat(chunks), BodyIn(head + tail, |head|, NextFrame(head + tail, limit)));
  }

  lemma NothingServed(pieces: seq<Bytes>, limit: nat)
    requires Concat(pieces) == []
    ensures Converse(pieces, limit) == []
  {
    hide Arrive;
    if Arrive([], pieces, limit).Served? {
      LeftIsRest([], pieces, limit);
    }
  }

  /** Two chunked requests behind each other, with any chunks: in whatever reads they arrive, the
      connection serves the two, with the chunks joined as their bodies. */
  lemma TwoRequests(first: seq<Bytes>, second: seq<Bytes>, pieces: seq<Bytes>, limit: nat)
    requires Countable(first) && |ChunkedMessage(first)| <= limit
    requires Countable(second) && |ChunkedMessage(second)| <= limit
    requires Concat(pieces) == ChunkedMessage(first) + ChunkedMessage(second) && |Concat(pieces)| <= MAX_STRING
    ensures Converse(pieces, limit) == [ChunkedRequest(first), ChunkedRequest(second)]
  {
    hide ChunkedMessage, ChunkedRequest, IsCleanMessage, RequestOf, NextFrame, Converse;
    MessageIsClean(first, limit);
    MessageIsClean(second, limit);
    var messages := [ChunkedMessage(first), ChunkedMessage(second)];
    TwoPieces(messages[0], messages[1]);
    assert Concat(pieces) == Concat(messages) + [];
    MessagesAreServed(messages, [], pieces, limit);
    var left :| Concat(left) == [] && Converse(pieces, limit) == RequestsOf(messages, limit) + Converse(left, limit);
    NothingServed(left, limit);
    assert Converse(pieces, limit) == RequestsOf(messages, limit);
  }
}
