/** Finding the first request in a connection's buffer (sections 2.2, 5 and 6 of RFC 9112). */
module Http1Framing {
  import opened Wrappers
  import opened Octets
  import opened RequestText
  import opened ChunkedBody
  import opened ChunkedDecoding

  // ----- the end of the header section

  predicate BlankLineAt(s: Bytes, i: int) {
    CrlfAt(s, i) && CrlfAt(s, i + 2)
  }

  function FindBlankLine(s: Bytes): (r: Option<nat>)
    ensures r.Some? ==> BlankLineAt(s, r.value) && forall j :: 0 <= j < r.value ==> !BlankLineAt(s, j)
    ensures r.None? ==> forall j :: !BlankLineAt(s, j)
  {
    if |s| < 4 then None
    else if BlankLineAt(s, 0) then Some(0)
    else
      match FindBlankLine(s[1..])
      case None =>
        assert forall j :: BlankLineAt(s, j) ==> BlankLineAt(s[1..], j - 1);
        None
      case Some(i) =>
        assert forall j :: 0 < j && BlankLineAt(s, j) ==> BlankLineAt(s[1..], j - 1);
        Some(i + 1)
  }

  lemma FindBlankLineIs(s: Bytes, i: nat)
    requires BlankLineAt(s, i) && forall j :: 0 <= j < i ==> !BlankLineAt(s, j)
    ensures FindBlankLine(s) == Some(i)
  {
  }

  /** It is decided by the octets up to it. */
  lemma FindBlankLineStable(s: Bytes, more: Bytes)
    requires FindBlankLine(s).Some?
    ensures FindBlankLine(s + more) == FindBlankLine(s)
  {
    var i: nat := FindBlankLine(s).value;
    assert forall j :: 0 <= j < i ==> BlankLineAt(s + more, j) ==> BlankLineAt(s, j);
    FindBlankLineIs(s + more, i);
  }

  // ----- the checks on the header section

  predicate PairedAt(s: Bytes, i: nat)
    requires i < |s|
  {
    && (s[i] == LF ==> i > 0 && s[i - 1] == CR)
    && (s[i] == CR ==> i + 1 < |s| && s[i + 1] == LF)
  }

  /** CR and LF occur only as CR LF. */
  predicate Paired(s: Bytes) {
    forall i :: 0 <= i < |s| ==> PairedAt(s, i)
  }

  predicate IsControl(b: Byte) {
    b < 0x20 || b == 0x7f
  }

  predicate NoOtherControls(s: Bytes) {
    forall i :: 0 <= i < |s| ==> s[i] == CR || s[i] == LF || s[i] == TAB || !IsControl(s[i])
  }

  predicate CleanValue(s: Bytes) {
    forall i :: 0 <= i < |s| ==> s[i] == TAB || !IsControl(s[i])
  }

  function TransferEncodingName(): Bytes {
    Ascii("transfer-encoding")
  }

  /** The values of the two framing headers, in the order of their lines. */
  datatype Framing = Framing(lengths: seq<Bytes>, encodings: seq<Bytes>)

  const NO_FRAMING := Framing([], [])

  /** A header line: its lower-cased name and trimmed value. */
  function SplitLine(line: Bytes): Option<(Bytes, Bytes)>
    requires line != []
  {
    if line[0] == SPACE || line[0] == TAB then None
    else
      match Find(line, COLON)
      case None => None
      case Some(i) =>
        if ValidHeaderName(line[..i]) && CleanValue(Trim(line[i + 1..]))
            then Some((Lower(line[..i]), Trim(line[i + 1..])))
        else None
  }

  function Noted(f: Framing, field: (Bytes, Bytes)): Framing {
    if field.0 == ContentLengthName() then f.(lengths := f.lengths + [field.1])
    else if field.0 == TransferEncodingName() then f.(encodings := f.encodings + [field.1])
    else f
  }

  /** The header lines up to the empty one. */
  function ReadLines(s: Bytes, f: Framing): Option<Framing>
    decreases |s|
  {
    if s == [] then Some(f)
    else
      match FindCrlf(s)
      case None => None
      case Some(end) =>
        if end == 0 then Some(f)
        else
          match SplitLine(s[..end])
          case None => None
          case Some(field) => ReadLines(s[end + 2..], Noted(f, field))
  }

  /** The first line is not looked at. */
  function ReadHead(s: Bytes): Option<Framing> {
    if s == [] then Some(NO_FRAMING)
    else
      match FindCrlf(s)
      case None => None
      case Some(end) => if end == 0 then Some(NO_FRAMING) else ReadLines(s[end + 2..], NO_FRAMING)
  }

  function Item(text: Bytes): seq<Bytes> {
    if Trim(text) == [] then [] else [Trim(text)]
  }

  /** The non-empty items of a comma-separated list. */
  function Items(value: Bytes): seq<Bytes>
    decreases |value|
  {
    match Find(value, COMMA)
    case None => Item(value)
    case Some(i) => Item(value[..i]) + Items(value[i + 1..])
  }

  /** How long the body is said to be. */
  datatype Analysis = Analysis(chunked: bool, contentLength: Option<nat>)

  predicate IsChunkedCoding(value: Bytes) {
    |Items(value)| == 1 && Lower(Items(value)[0]) == Ascii("chunked")
  }

  function Conclusion(f: Framing): Option<Analysis> {
    if |f.lengths| > 1 || |f.encodings| > 1 then None
    else
      var length := if f.lengths == [] then None else SizeOf(Trim(f.lengths[0]), Decimal);
      if f.lengths != [] && length.None? then None
      else if f.encodings == [] then Some(Analysis(false, length))
      else if !IsChunkedCoding(f.encodings[0]) || length.Some? then None
      else Some(Analysis(true, None))
  }

  function Analyze(head: Bytes): Option<Analysis> {
    if !Paired(head) || !NoOtherControls(head) then None
    else
      match ReadHead(head) case None => None case Some(f) => Conclusion(f)
  }

  // ----- frames

  datatype Frame =
    | NeedMore
    | HeaderComplete(request: Request, chunked: bool, contentLength: Option<nat>, consumed: nat, waitingForBody: bool)
    | Framed(request: Request, chunked: bool, contentLength: Option<nat>, consumed: nat, rawRequest: Bytes)
    | Refused(status: nat, consumed: nat, discardBuffer: bool)
    | FramerThrows
    | FramerHangs

  function ChunkedFrame(buffered: Bytes, start: nat, request: Request, limit: nat): Frame
    requires start <= |buffered| && start <= limit
  {
    match Decoding(buffered[start..])
    case DecodeIncomplete =>
      if |buffered| > limit then Refused(413, 0, true)
      else HeaderComplete(request, true, None, start, true)
    case DecodeMalformed => Refused(400, start, false)
    case DecodeComplete(body, consumed) =>
      if start + consumed > limit then Refused(400, |buffered|, false)
      else Framed(request, true, None, start + consumed, buffered[..start] + body)
    case DecodeThrows => FramerThrows
    case DecodeHangs => FramerHangs
  }

  function PlainFrame(buffered: Bytes, start: nat, request: Request, size: nat, limit: nat): Frame
    requires start <= |buffered| && start <= limit
  {
    if start + size > limit then Refused(413, 0, true)
    else if |buffered| < start + size then HeaderComplete(request, false, Some(size), start, size > 0)
    else Framed(request, false, Some(size), start + size, buffered[..start + size])
  }

  function BodyFrame(buffered: Bytes, start: nat, request: Request, analysis: Analysis, limit: nat): (r: Frame)
    requires start <= |buffered| && start <= limit
    ensures r.HeaderComplete? || r.Framed? ==> r.consumed <= |buffered| && r.consumed <= limit
  {
    if analysis.chunked then ChunkedFrame(buffered, start, request, limit)
    else
      var size := if analysis.contentLength.Some? then analysis.contentLength.value else 0;
      PlainFrame(buffered, start, request, size, limit)
  }

  /** The frame of a buffer whose header section ends at `start`. */
  function FrameFrom(buffered: Bytes, start: nat, limit: nat): (r: Frame)
    requires start <= |buffered|
    ensures r.HeaderComplete? || r.Framed? ==> r.consumed <= |buffered| && r.consumed <= limit
  {
    match Analyze(buffered[..start])
    case None => Refused(400, start, false)
    case Some(analysis) =>
      if start > limit then Refused(431, start, false)
      else
        match ParseRequest(buffered[..start])
        case Err(_) => Refused(400, start, false)
        case Ok(request) => BodyFrame(buffered, start, request, analysis, limit)
  }

  function NextFrame(buffered: Bytes, limit: nat): (r: Frame)
    ensures r.HeaderComplete? || r.Framed? ==> r.consumed <= |buffered| && r.consumed <= limit
  {
    match FindBlankLine(buffered)
    case None => if |buffered| > limit then Refused(431, 0, false) else NeedMore
    case Some(headerEnd) => FrameFrom(buffered, headerEnd + 4, limit)
  }

  // ----- the loops

  method CheckCharacters(head: Bytes) returns (ok: bool)
    ensures ok <==> Paired(head) && NoOtherControls(head)
  {
    for i := 0 to |head|
      invariant forall k :: 0 <= k < i ==> PairedAt(head, k)
      invariant forall k :: 0 <= k < i ==> head[k] == CR || head[k] == LF || head[k] == TAB || !IsControl(head[k])
    {
      assert Paired(head) ==> PairedAt(head, i);
      if head[i] == LF && (i == 0 || head[i - 1] != CR) {
        return false;
      }
      if head[i] == CR && (i + 1 >= |head| || head[i + 1] != LF) {
        return false;
      }
      if head[i] == CR || head[i] == LF || head[i] == TAB {
        continue;
      }
      if head[i] < 0x20 || head[i] == 0x7f {
        return false;
      }
    }
    ok := true;
  }

  lemma LinesAt(head: Bytes, at: nat, f: Framing)
    requires at < |head|
    ensures match FindCrlf(head[at..])
            case None => ReadLines(head[at..], f) == None && ReadHead(head[at..]) == None
            case Some(end) =>
              var next := head[at + end + 2..];
              if end == 0 then ReadLines(head[at..], f) == Some(f) && ReadHead(head[at..]) == Some(NO_FRAMING)
              else
                && ReadHead(head[at..]) == ReadLines(next, NO_FRAMING)
                && ReadLines(head[at..], f) ==
                   match SplitLine(head[at..at + end])
                   case None => None
                   case Some(field) => ReadLines(next, Noted(f, field))
  {
    hide FindCrlf, SplitLine, Noted;
    var rest := head[at..];
    if FindCrlf(rest).Some? {
      var end: nat := FindCrlf(rest).value;
      assert rest[..end] == head[at..at + end] && rest[end + 2..] == head[at + end + 2..];
    }
  }

  lemma NoLines(f: Framing)
    ensures ReadLines([], f) == Some(f) && ReadHead([]) == Some(NO_FRAMING)
  {
  }

  method ReadFields(head: Bytes) returns (r: Option<Framing>)
    ensures r == ReadHead(head)
  {
    hide FindCrlf, SplitLine, Noted, ReadLines, ReadHead;
    var lineStart, firstLine, framing := 0, true, NO_FRAMING;
    assert head[0..] == head;
    while lineStart < |head|
      invariant lineStart <= |head|
      invariant ReadHead(head)
          == if firstLine then ReadHead(head[lineStart..]) else ReadLines(head[lineStart..], framing)
      invariant firstLine ==> framing == NO_FRAMING
    {
      LinesAt(head, lineStart, framing);
      var lineEnd := FindCrlf(head[lineStart..]);
      if lineEnd.None? {
        return None;
      }
      var line := head[lineStart..lineStart + lineEnd.value];
      lineStart := lineStart + lineEnd.value + 2;
      if line == [] {
        return Some(framing);
      }
      if firstLine {
        firstLine := false;
        continue;
      }
      var field := SplitLine(line);
      if field.None? {
        return None;
      }
      framing := Noted(framing, field.value);
    }
    NoLines(framing);
    assert head[lineStart..] == [];
    r := Some(framing);
  }

  lemma {:induction false} ItemsPrefixed(done: seq<Bytes>, value: Bytes)
    ensures done + Items(value) ==
            match Find(value, COMMA)
            case None => done + Item(value)
            case Some(i) => done + Item(value[..i]) + Items(value[i + 1..])
  {
    hide Item;
  }

  /** `split_csv`. */
  method SplitCsv(value: Bytes) returns (items: seq<Bytes>)
    ensures items == Items(value)
  {
    hide Find, Items, Trim;
    items := [];
    var input := value;
    assert items + Items(value) == Items(value);
    while true
      invariant items + Items(input) == Items(value)
      decreases |input|
    {
      ItemsPrefixed(items, input);
      var comma := Find(input, COMMA);
      var item := Trim(if comma.Some? then input[..comma.value] else input);
      if item != [] {
        items := items + [item];
      } else {
        assert items + [] == items;
      }
      if comma.None? {
        return;
      }
      input := input[comma.value + 1..];
    }
  }

  /** `analyze_header_frame`. */
  method AnalyzeHeaderFrame(head: Bytes) returns (r: Option<Analysis>)
    ensures r == Analyze(head)
  {
    hide Paired, NoOtherControls, ReadHead, Items;
    var ok := CheckCharacters(head);
    if !ok {
      return None;
    }
    var framing := ReadFields(head);
    if framing.None? || |framing.value.lengths| > 1 {
      return None;
    }
    var contentLength := None;
    if framing.value.lengths != [] {
      contentLength := ParseSize(Trim(framing.value.lengths[0]), Decimal);
      if contentLength.None? {
        return None;
      }
    }
    if |framing.value.encodings| > 1 {
      return None;
    }
    var chunked := false;
    if framing.value.encodings != [] {
      var encodings := SplitCsv(framing.value.encodings[0]);
      if |encodings| != 1 || Lower(encodings[0]) != Ascii("chunked") {
        return None;
      }
      if contentLength.Some? {
        return None;
      }
      chunked := true;
    }
    r := Some(Analysis(chunked, contentLength));
  }

  /** `next_http1_request_frame`. */
  method NextHttp1RequestFrame(buffered: Bytes, limit: nat) returns (r: Frame)
    ensures r == NextFrame(buffered, limit)
  {
    hide Analyze, ParseRequest, Decoding, FindBlankLine;
    var headerEnd := FindBlankLine(buffered);
    if headerEnd.None? {
      return if |buffered| > limit then Refused(431, 0, false) else NeedMore;
    }
    var start := headerEnd.value + 4;
    var analysis := AnalyzeHeaderFrame(buffered[..start]);
    if analysis.None? {
      return Refused(400, start, false);
    }
    if start > limit {
      return Refused(431, start, false);
    }
    var request := ReadRequest(buffered[..start]);
    if request.Err? {
      return Refused(400, start, false);
    }
    if analysis.value.chunked {
      var decoded := DecodeChunkedBody(buffered[start..]);
      if decoded.DecodeIncomplete? {
        return if |buffered| > limit then Refused(413, 0, true)
            else HeaderComplete(request.value, true, None, start, true);
      }
      if decoded.DecodeThrows? || decoded.DecodeHangs? {
        return if decoded.DecodeThrows? then FramerThrows else FramerHangs;
      }
      var consumed := if decoded.DecodeComplete? then decoded.consumed else 0;
      var tooLarge := consumed > limit || start > limit - consumed;
      if decoded.DecodeMalformed? || tooLarge {
        var dropped := if |buffered| < start + consumed then |buffered| else start + consumed;
        return Refused(400, if tooLarge then |buffered| else dropped, false);
      }
      return Framed(request.value, true, None, start + decoded.consumed, buffered[..start] + decoded.body);
    }
    var size := if analysis.value.contentLength.Some? then analysis.value.contentLength.value else 0;
    if size > limit || start > limit - size {
      return Refused(413, 0, true);
    }
    if |buffered| < start + size {
      return HeaderComplete(request.value, false, Some(size), start, size > 0);
    }
    r := Framed(request.value, false, Some(size), start + size, buffered[..start + size]);
  }

  // ----- more input

  /** The header section announces a chunked body, and reading it comes to a sum that wraps. */
  predicate Wrapped(buffered: Bytes) {
    match FindBlankLine(buffered)
    case None => false
    case Some(i) =>
      var analysis := Analyze(buffered[..i + 4]);
      analysis.Some? && analysis.value.chunked && Wraps(buffered[i + 4..])
  }

  /** The two parts of a buffer, when more has arrived. */
  lemma SameParts(buffered: Bytes, more: Bytes)
    requires FindBlankLine(buffered).Some?
    ensures FindBlankLine(buffered + more) == FindBlankLine(buffered)
    ensures var start: nat := FindBlankLine(buffered).value + 4;
      && start <= |buffered|
      && (buffered + more)[..start] == buffered[..start] && (buffered + more)[start..] == buffered[start..] + more
  {
    hide FindBlankLine;
    FindBlankLineStable(buffered, more);
  }

  lemma WrappedStays(buffered: Bytes, more: Bytes)
    requires Wrapped(buffered)
    ensures Wrapped(buffered + more)
  {
    hide Analyze, FindBlankLine, WrapsFrom;
    SameParts(buffered, more);
    WrapsStay(buffered[FindBlankLine(buffered).value + 4..], more, 0);
  }

  /** The octets are read in the same way, with the same ones consumed. */
  predicate SameFrame(early: Frame, late: Frame) {
    early.Framed? && late.Framed? && late == early.(rawRequest := late.rawRequest)
  }

  lemma ChunkedFrameStable(buffered: Bytes, more: Bytes, start: nat, request: Request, limit: nat)
    requires start <= |buffered| && start <= limit && ChunkedFrame(buffered, start, request, limit).Framed?
    ensures var early, late := ChunkedFrame(buffered, start, request, limit),
                               ChunkedFrame(buffered + more, start, request, limit);
      && SameFrame(early, late)
      && (more == [] ==> late == early)
      && (|buffered| <= MAX_STRING && more != [] ==>
            if Wraps(buffered[start..]) then |early.rawRequest| < |late.rawRequest| else late == early)
  {
    hide Decoding, WrapsFrom;
    DecodingStable(buffered[start..], more);
    assert (buffered + more)[start..] == buffered[start..] + more;
    assert (buffered + more)[..start] == buffered[..start];
    if more == [] {
      assert buffered + more == buffered;
    }
  }

  lemma PlainFrameStable(buffered: Bytes, more: Bytes, start: nat, request: Request, size: nat, limit: nat)
    requires start <= |buffered| && start <= limit && PlainFrame(buffered, start, request, size, limit).Framed?
    ensures PlainFrame(buffered + more, start, request, size, limit)
        == PlainFrame(buffered, start, request, size, limit)
  {
    assert (buffered + more)[..start + size] == buffered[..start + size];
  }

  /** A buffer that frames as complete still does when more input arrives, with the same octets
      consumed. It is the same frame if and only if no sum wraps; otherwise the new octets are in
      the request. */
  lemma FramingStable(buffered: Bytes, more: Bytes, limit: nat)
    requires NextFrame(buffered, limit).Framed?
    ensures var early, late := NextFrame(buffered, limit), NextFrame(buffered + more, limit);
      && SameFrame(early, late)
      && (more == [] ==> late == early)
      && (|buffered| <= MAX_STRING && more != [] ==>
            if Wrapped(buffered) then |early.rawRequest| < |late.rawRequest| else late == early)
  {
    hide Analyze, ParseRequest, ChunkedFrame, PlainFrame, FindBlankLine, WrapsFrom;
    SameParts(buffered, more);
    var start: nat := FindBlankLine(buffered).value + 4;
    var request, analysis := ParseRequest(buffered[..start]).value, Analyze(buffered[..start]).value;
    if analysis.chunked {
      ChunkedFrameStable(buffered, more, start, request, limit);
    } else {
      var size := if analysis.contentLength.Some? then analysis.contentLength.value else 0;
      PlainFrameStable(buffered, more, start, request, size, limit);
    }
  }

  /** Where no sum wraps, the frame is what the octets mean. */
  lemma ChunkedFrameByChunks(buffered: Bytes, start: nat, request: Request, limit: nat)
    requires start <= |buffered| <= MAX_STRING && start <= limit && !Wraps(buffered[start..])
    ensures ChunkedFrame(buffered, start, request, limit) ==
            match Chunks(buffered[start..], false)
            case Incomplete =>
              if |buffered| > limit then Refused(413, 0, true) else HeaderComplete(request, true, None, start, true)
            case Malformed => Refused(400, start, false)
            case Complete(body, rest) =>
              if |rest| > |buffered| || |buffered| - |rest| > limit then Refused(400, |buffered|, false)
              else Framed(request, true, None, |buffered| - |rest|, buffered[..start] + body)
  {
    hide Decoding, Chunks, WrapsFrom;
    UnwrappedDecoding(buffered[start..]);
  }

  lemma ChunkedFrameIsFramed(buffered: Bytes, start: nat, request: Request, limit: nat)
    requires start <= |buffered| <= MAX_STRING && start <= limit
    requires ChunkedFrame(buffered, start, request, limit).Framed?
    ensures Wraps(buffered[start..]) <==> Chunks(buffered[start..], false).Incomplete?
  {
    hide Decoding, Chunks, WrapsFrom;
    DecodesExactly(buffered[start..]);
    if !Chunks(buffered[start..], false).Incomplete? {
      Unwrapped(buffered[start..]);
    }
  }

  /** A complete message without a sum that wraps has none with more behind it. */
  lemma StaysUnwrapped(buffered: Bytes, more: Bytes, limit: nat)
    requires NextFrame(buffered, limit).Framed? && !Wrapped(buffered) && |buffered + more| <= MAX_STRING
    ensures !Wrapped(buffered + more)
  {
    hide Analyze, ParseRequest, ChunkedFrame, PlainFrame, FindBlankLine, WrapsFrom, Chunks;
    SameParts(buffered, more);
    var start: nat := FindBlankLine(buffered).value + 4;
    if Analyze(buffered[..start]).value.chunked {
      ChunkedFrameIsFramed(buffered, start, ParseRequest(buffered[..start]).value, limit);
      ChunksStable(buffered[start..], more, false);
      Unwrapped(buffered[start..] + more);
    }
  }

  // ----- pipelines

  /** Some input that is exactly one complete message. */
  ghost predicate IsMessage(m: Bytes, limit: nat) {
    NextFrame(m, limit).Framed? && NextFrame(m, limit).consumed == |m|
  }

  lemma FrameFits(buffered: Bytes, limit: nat)
    requires NextFrame(buffered, limit).Framed?
    ensures 4 <= NextFrame(buffered, limit).consumed <= |buffered|
    ensures NextFrame(buffered, limit).consumed <= limit
  {
    hide Analyze, ParseRequest, Decoding, FindBlankLine;
  }

  /** The requests that framing and erasing finds at the front of a buffer, one after another. */
  function RequestsIn(buffered: Bytes, limit: nat): seq<Bytes>
    decreases |buffered|
  {
    var frame := NextFrame(buffered, limit);
    if frame.Framed? then
      FrameFits(buffered, limit);
      [frame.rawRequest] + RequestsIn(buffered[frame.consumed..], limit)
    else []
  }

  function RawRequests(messages: seq<Bytes>, limit: nat): (r: seq<Bytes>)
    requires forall i :: 0 <= i < |messages| ==> IsMessage(messages[i], limit)
    ensures |r| == |messages|
  {
    if messages == [] then []
    else
      assert IsMessage(messages[0], limit);
      [NextFrame(messages[0], limit).rawRequest] + RawRequests(messages[1..], limit)
  }

  /** No message but one with nothing behind it has a sum that wraps. */
  predicate WrapsOnlyAtEnd(messages: seq<Bytes>, tail: Bytes) {
    forall i :: 0 <= i < |messages| && Wrapped(messages[i]) ==> i == |messages| - 1 && tail == []
  }

  lemma SamePipeline(first: seq<Bytes>, a: Bytes, b: Bytes, x: seq<Bytes>, y: seq<Bytes>)
    requires first == [a] + x
    ensures first == [b] + y <==> a == b && x == y
  {
    assert ([b] + y)[0] == b && ([b] + y)[1..] == y && first[1..] == x;
  }

  lemma MessageBehindMessage(messages: seq<Bytes>, tail: Bytes, limit: nat)
    requires messages != [] && forall i :: 0 <= i < |messages| ==> IsMessage(messages[i], limit)
    ensures Concat(messages[1..]) + tail == [] <==> |messages| == 1 && tail == []
    ensures WrapsOnlyAtEnd(messages, tail) <==>
            (Wrapped(messages[0]) ==> Concat(messages[1..]) + tail == []) && WrapsOnlyAtEnd(messages[1..], tail)
  {
    hide NextFrame, Wrapped;
    if |messages| > 1 {
      assert IsMessage(messages[1], limit);
      FrameFits(messages[1], limit);
      assert messages[1..][0] == messages[1];
    }
    forall i | 0 < i < |messages|
      ensures messages[i] == messages[1..][i - 1]
    {
    }
    if WrapsOnlyAtEnd(messages[1..], tail) {
      forall i | 0 < i < |messages| && Wrapped(messages[i])
        ensures i == |messages| - 1 && tail == []
      {
        assert Wrapped(messages[1..][i - 1]);
      }
    }
  }

  /** A pipeline of complete messages is split into exactly those messages, in order, whatever
      follows them, if and only if no sum wraps in a message that has something behind it. */
  lemma {:induction false} PipelineIsSplit(messages: seq<Bytes>, tail: Bytes, limit: nat)
    requires forall i :: 0 <= i < |messages| ==> IsMessage(messages[i], limit)
    requires |Concat(messages) + tail| <= MAX_STRING
    ensures RequestsIn(Concat(messages) + tail, limit) == RawRequests(messages, limit) + RequestsIn(tail, limit)
            <==> WrapsOnlyAtEnd(messages, tail)
    decreases |messages|
  {
    hide NextFrame, Wrapped, WrapsOnlyAtEnd;
    if messages == [] {
      assert [] + tail == tail && [] + RequestsIn(tail, limit) == RequestsIn(tail, limit);
      assert WrapsOnlyAtEnd(messages, tail) by { NothingWraps(tail); }
    } else {
      var first, rest := messages[0], Concat(messages[1..]) + tail;
      assert IsMessage(first, limit);
      assert Concat(messages) + tail == first + rest;
      FramingStable(first, rest, limit);
      assert (first + rest)[|first|..] == rest;
      PipelineIsSplit(messages[1..], tail, limit);
      MessageBehindMessage(messages, tail, limit);
      var raw := NextFrame(first, limit).rawRequest;
      var behind := RawRequests(messages[1..], limit) + RequestsIn(tail, limit);
      assert [raw] + behind == RawRequests(messages, limit) + RequestsIn(tail, limit);
      SamePipeline(RequestsIn(first + rest, limit), NextFrame(first + rest, limit).rawRequest, raw,
                   RequestsIn(rest, limit), behind);
    }
  }

  lemma NothingWraps(tail: Bytes)
    ensures WrapsOnlyAtEnd([], tail)
  {
  }
}
