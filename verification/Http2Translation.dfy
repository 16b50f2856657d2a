/** Turning a finished HTTP/2 stream into a request, by way of HTTP/1.1 text (section 8.3 of
    RFC 9113): the checks and the merging of header fields, the printing, and the reading back. */
module Http2Translation {
  import opened Wrappers
  import opened Octets
  import opened HpackTable
  import opened RequestText

  // ----- which fields a request may carry

  function MethodName(): Bytes { Ascii(":method") }
  function PathName(): Bytes { Ascii(":path") }
  function SchemeName(): Bytes { Ascii(":scheme") }
  function AuthorityName(): Bytes { Ascii(":authority") }
  function HostName(): Bytes { Ascii("host") }

  predicate IsPseudoName(name: Bytes) {
    name == MethodName() || name == PathName() || name == SchemeName() || name == AuthorityName()
  }

  predicate HasUppercase(s: Bytes) {
    exists i :: 0 <= i < |s| && IsUpper(s[i])
  }

  predicate HasControl(s: Bytes) {
    exists i :: 0 <= i < |s| && s[i] != TAB && (s[i] < 0x20 || s[i] == 0x7f)
  }

  predicate Forbidden(name: Bytes, value: Bytes) {
    if name == Ascii("te") then Lower(value) != Ascii("trailers")
    else
      name == Ascii("connection") || name == Ascii("keep-alive") || name == Ascii("proxy-connection")
      || name == Ascii("transfer-encoding") || name == Ascii("upgrade")
  }

  /** The local variables of the merging loop. */
  datatype Merge = Merge(pseudo: map<Bytes, Bytes>, headers: map<Bytes, Bytes>, regularSeen: bool,
                         contentLength: Option<nat>)

  const NOTHING_MERGED := Merge(map[], map[], false, None)

  function Separator(name: Bytes): Bytes {
    if name == Ascii("cookie") then Ascii("; ") else Ascii(", ")
  }

  function WithHeader(headers: map<Bytes, Bytes>, name: Bytes, value: Bytes): map<Bytes, Bytes> {
    headers[name := if name in headers then headers[name] + Separator(name) + value else value]
  }

  /** One more field, or None for a bad request. */
  function MergeField(m: Merge, field: HeaderField): Option<Merge> {
    var name := Lower(field.name);
    if name == [] || HasUppercase(field.name) || HasControl(field.value) then None
    else if name[0] == COLON then
      if !IsPseudoName(name) || m.regularSeen || name in m.pseudo then None
      else Some(m.(pseudo := m.pseudo[name := field.value]))
    else if !ValidHeaderName(name) || Forbidden(name, field.value) then None
    else if name == ContentLengthName() then
      var length := SizeOf(Trim(field.value), Decimal);
      if m.contentLength.Some? || length.None? then None
      else Some(Merge(m.pseudo, WithHeader(m.headers, name, field.value), true, length))
    else Some(m.(headers := WithHeader(m.headers, name, field.value), regularSeen := true))
  }

  function MergeFields(m: Merge, fields: seq<HeaderField>): Option<Merge>
    decreases |fields|
  {
    if fields == [] then Some(m)
    else
      match MergeField(m, fields[0])
      case None => None
      case Some(next) => MergeFields(next, fields[1..])
  }

  /** What is to be printed: the request line, the header map, and the value of a
      content-length line if one has to be added. */
  datatype Plan = Plan(verb: Bytes, path: Bytes, headers: map<Bytes, Bytes>, addedLength: Option<nat>)

  function PlanOf(m: Merge, body: Bytes): Option<Plan> {
    if MethodName() !in m.pseudo || PathName() !in m.pseudo || SchemeName() !in m.pseudo then None
    else if m.pseudo[SchemeName()] != Ascii("http") && m.pseudo[SchemeName()] != Ascii("https") then None
    else if m.contentLength.Some? && m.contentLength.value != |body| then None
    else if AuthorityName() in m.pseudo && HostName() in m.headers && m.headers[HostName()] != m.pseudo[AuthorityName()]
        then None
    else
      var headers := if AuthorityName() in m.pseudo then m.headers[HostName() := m.pseudo[AuthorityName()]]
          else m.headers;
      Some(Plan(m.pseudo[MethodName()], m.pseudo[PathName()], headers,
                if body != [] && m.contentLength.None? then Some(|body|) else None))
  }

  function PlanFor(fields: seq<HeaderField>, body: Bytes): Option<Plan> {
    match MergeFields(NOTHING_MERGED, fields) case None => None case Some(m) => PlanOf(m, body)
  }

  // ----- the printed text

  function PrintHeaders(order: seq<Bytes>, headers: map<Bytes, Bytes>): Bytes
    requires forall i :: 0 <= i < |order| ==> order[i] in headers
  {
    if order == [] then [] else HeaderLine(order[0], headers[order[0]]) + PrintHeaders(order[1..], headers)
  }

  function RequestLine(plan: Plan): Bytes {
    plan.verb + [SPACE] + plan.path + [SPACE] + Http11() + CRLF
  }

  function AddedLine(plan: Plan): Bytes {
    if plan.addedLength.Some? then HeaderLine(ContentLengthName(), Digits(plan.addedLength.value, Decimal)) else []
  }

  /** The text, for the order in which the header map happens to be run through. */
  function PrintRequest(plan: Plan, order: seq<Bytes>, body: Bytes): Bytes
    requires forall i :: 0 <= i < |order| ==> order[i] in plan.headers
  {
    RequestLine(plan) + PrintHeaders(order, plan.headers) + AddedLine(plan) + CRLF + body
  }

  // ----- what the request should be

  function Trimmed(headers: map<Bytes, Bytes>): map<Bytes, Bytes> {
    map name | name in headers :: Trim(headers[name])
  }

  function ExpectedHeaders(plan: Plan): map<Bytes, Bytes> {
    if plan.addedLength.Some?
    then Trimmed(plan.headers)[ContentLengthName() := Digits(plan.addedLength.value, Decimal)]
    else Trimmed(plan.headers)
  }

  /** The request that a plan and a body stand for; None when the method and the path do not
      make two words. */
  function ExpectedRequest(plan: Plan, body: Bytes, version: Bytes): Option<Request> {
    var words := Fields(plan.verb) + Fields(plan.path);
    if |words| == 2 then Some(Request(words[0], words[1], version, ExpectedHeaders(plan), body)) else None
  }

  // ----- a plan can be printed line by line

  ghost predicate Printable(plan: Plan) {
    && OnOneLine(plan.verb) && OnOneLine(plan.path)
    && PrintableHeaders(plan.headers)
  }

  ghost predicate PrintableHeaders(headers: map<Bytes, Bytes>) {
    forall name :: name in headers ==> IsFieldName(name) && OnOneLine(headers[name])
  }

  ghost predicate PrintableMerge(m: Merge) {
    PrintableHeaders(m.headers) && forall name :: name in m.pseudo ==> OnOneLine(m.pseudo[name])
  }

  lemma NoControlMeansOneLine(s: Bytes)
    requires !HasControl(s)
    ensures OnOneLine(s)
  {
  }

  lemma LoweredHasNoUpper(s: Bytes)
    ensures forall i :: 0 <= i < |s| ==> !IsUpper(Lower(s)[i])
  {
  }

  lemma JoinedOnOneLine(name: Bytes, a: Bytes, b: Bytes)
    requires OnOneLine(a) && OnOneLine(b)
    ensures OnOneLine(a + Separator(name) + b)
  {
    assert Ascii("; ") == [59, 32] && Ascii(", ") == [44, 32];
  }

  lemma MergeFieldPrintable(m: Merge, field: HeaderField)
    requires PrintableMerge(m)
    ensures match MergeField(m, field) case None => true case Some(next) => PrintableMerge(next)
  {
    hide Forbidden, IsPseudoName, Separator, ContentLengthName, SizeOf, Trim;
    var name := Lower(field.name);
    if MergeField(m, field).Some? {
      NoControlMeansOneLine(field.value);
      LoweredHasNoUpper(field.name);
      if name in m.headers {
        JoinedOnOneLine(name, m.headers[name], field.value);
      }
    }
  }

  lemma {:induction false} MergeFieldsPrintable(m: Merge, fields: seq<HeaderField>)
    requires PrintableMerge(m)
    ensures match MergeFields(m, fields) case None => true case Some(next) => PrintableMerge(next)
    decreases |fields|
  {
    if fields != [] {
      MergeFieldPrintable(m, fields[0]);
      hide MergeField, PrintableMerge;
      match MergeField(m, fields[0])
      case None =>
      case Some(next) => MergeFieldsPrintable(next, fields[1..]);
    }
  }

  lemma HostIsFieldName()
    ensures IsFieldName(HostName()) && IsFieldName(ContentLengthName())
  {
    assert HostName() == [104, 111, 115, 116];
    assert ContentLengthName() == [99, 111, 110, 116, 101, 110, 116, 45, 108, 101, 110, 103, 116, 104];
  }

  /** Whatever passes the checks can be printed. */
  lemma PlanPrintable(fields: seq<HeaderField>, body: Bytes)
    ensures match PlanFor(fields, body) case None => true case Some(plan) => Printable(plan)
  {
    MergeFieldsPrintable(NOTHING_MERGED, fields);
    HostIsFieldName();
    hide IsFieldName, OnOneLine;
  }

  // ----- reading the text back

  /** Every header occurs in the order. */
  ghost predicate Covers(order: seq<Bytes>, headers: map<Bytes, Bytes>) {
    forall name :: name in headers <==> name in order
  }

  /** The map that reading the printed headers adds to `read`. */
  function ReadInto(order: seq<Bytes>, headers: map<Bytes, Bytes>, read: map<Bytes, Bytes>): map<Bytes, Bytes>
    requires forall i :: 0 <= i < |order| ==> order[i] in headers
  {
    if order == [] then read else ReadInto(order[1..], headers, read[order[0] := Trim(headers[order[0]])])
  }

  lemma {:induction false} HeadersReadBack(order: seq<Bytes>, headers: map<Bytes, Bytes>, rest: Bytes,
      read: map<Bytes, Bytes>)
    requires PrintableHeaders(headers)
    requires forall i :: 0 <= i < |order| ==> order[i] in headers
    ensures ParseHeaders(PrintHeaders(order, headers) + rest, read)
        == ParseHeaders(rest, ReadInto(order, headers, read))
    decreases |order|
  {
    hide IsFieldName, OnOneLine, ParseHeaders, HeaderLine, Trim;
    if order == [] {
      assert PrintHeaders(order, headers) + rest == rest;
    } else {
      var name, later := order[0], PrintHeaders(order[1..], headers);
      assert PrintHeaders(order, headers) + rest == HeaderLine(name, headers[name]) + (later + rest);
      HeaderLineReadBack(name, headers[name], later + rest, read);
      HeadersReadBack(order[1..], headers, rest, read[name := Trim(headers[name])]);
    }
  }

  lemma {:induction false} ReadIntoHas(order: seq<Bytes>, headers: map<Bytes, Bytes>, read: map<Bytes, Bytes>,
      name: Bytes)
    requires forall i :: 0 <= i < |order| ==> order[i] in headers
    ensures var r := ReadInto(order, headers, read);
      && (name in r <==> name in order || name in read)
      && (name in order ==> r[name] == Trim(headers[name]))
      && (name !in order && name in read ==> r[name] == read[name])
    decreases |order|
  {
    hide Trim;
    if order != [] {
      ReadIntoHas(order[1..], headers, read[order[0] := Trim(headers[order[0]])], name);
      assert name in order <==> name == order[0] || name in order[1..];
    }
  }

  lemma ReadIntoNothing(order: seq<Bytes>, headers: map<Bytes, Bytes>)
    requires Covers(order, headers)
    ensures ReadInto(order, headers, map[]) == Trimmed(headers)
  {
    forall name
      ensures name in ReadInto(order, headers, map[]) <==> name in headers
      ensures name in headers ==> ReadInto(order, headers, map[])[name] == Trim(headers[name])
    {
      ReadIntoHas(order, headers, map[], name);
    }
  }

  lemma DigitsOnOneLine(n: nat)
    ensures OnOneLine(Digits(n, Decimal)) && Trim(Digits(n, Decimal)) == Digits(n, Decimal)
  {
    DigitsValue(n, Decimal);
    TrimIdentity(Digits(n, Decimal));
  }

  function LineText(plan: Plan): Bytes {
    plan.verb + [SPACE] + (plan.path + [SPACE] + Http11())
  }

  lemma VersionIsAWord()
    ensures IsWord(Http11()) && OnOneLine(Http11())
  {
    assert Http11() == [72, 84, 84, 80, 47, 49, 46, 49];
  }

  lemma LineTextShape(plan: Plan, rest: Bytes)
    requires OnOneLine(plan.verb) && OnOneLine(plan.path)
    ensures OnOneLine(LineText(plan)) && LineText(plan) != []
    ensures RequestLine(plan) + rest == (LineText(plan) + [CR]) + [LF] + rest
  {
    VersionIsAWord();
    hide Http11;
    assert RequestLine(plan) == LineText(plan) + [CR] + [LF];
  }

  lemma RequestLineReadBack(plan: Plan, rest: Bytes)
    requires OnOneLine(plan.verb) && OnOneLine(plan.path)
    ensures var raw := RequestLine(plan) + rest;
      && Fields(StripCr(FirstLine(raw))) == Fields(plan.verb) + Fields(plan.path) + [Http11()]
      && AfterLine(raw) == rest && raw != []
  {
    LineTextShape(plan, rest);
    hide RequestLine, Fields, Http11;
    var line := LineText(plan);
    LineEndsAt(line + [CR], rest);
    assert StripCr(line + [CR]) == line;
    WordsAround(plan.verb, plan.path + [SPACE] + Http11());
    WordsAround(plan.path, Http11());
    VersionIsAWord();
    OneWord(Http11());
  }

  lemma PrintedInParts(plan: Plan, order: seq<Bytes>, body: Bytes)
    requires forall i :: 0 <= i < |order| ==> order[i] in plan.headers
    ensures PrintRequest(plan, order, body) ==
            RequestLine(plan) + (PrintHeaders(order, plan.headers) + (AddedLine(plan) + (CRLF + body)))
  {
    hide RequestLine, PrintHeaders, AddedLine;
    FiveParts(RequestLine(plan), PrintHeaders(order, plan.headers), AddedLine(plan), CRLF, body);
  }

  lemma FiveParts(a: Bytes, b: Bytes, c: Bytes, d: Bytes, e: Bytes)
    ensures a + b + c + d + e == a + (b + (c + (d + e)))
  {
  }

  lemma PrintedHeadersReadBack(plan: Plan, order: seq<Bytes>, body: Bytes)
    requires Printable(plan) && Covers(order, plan.headers)
    ensures ParseHeaders(PrintHeaders(order, plan.headers) + (AddedLine(plan) + (CRLF + body)), map[])
            == Ok((ExpectedHeaders(plan), body))
  {
    hide ParseHeaders, PrintHeaders, AddedLine, ExpectedHeaders, OnOneLine, IsFieldName, Trim;
    HeadersReadBack(order, plan.headers, AddedLine(plan) + (CRLF + body), map[]);
    ReadIntoNothing(order, plan.headers);
    AddedLineReadBack(plan, CRLF + body);
    BlankLineReadBack(body, ExpectedHeaders(plan));
  }

  /** The parser reads back exactly what the stream meant, whatever the order in which the
      header map was printed; it fails if and only if the method and the path do not make
      two words. */
  lemma PrintedRequestReadBack(plan: Plan, order: seq<Bytes>, body: Bytes)
    requires Printable(plan) && Covers(order, plan.headers)
    ensures ParseRequest(PrintRequest(plan, order, body)) ==
            match ExpectedRequest(plan, body, Http11())
            case Some(request) => Ok(request)
            case None => Err(MalformedRequestLine)
  {
    var printed := PrintHeaders(order, plan.headers) + (AddedLine(plan) + (CRLF + body));
    hide Fields, ParseHeaders, PrintHeaders, PrintRequest, RequestLine, FirstLine, AfterLine, AddedLine,
         ExpectedHeaders, Http11, OnOneLine, IsFieldName, Trim;
    PrintedInParts(plan, order, body);
    RequestLineReadBack(plan, printed);
    PrintedHeadersReadBack(plan, order, body);
    var words := Fields(plan.verb) + Fields(plan.path);
    assert |words + [Http11()]| == 3 ==> (words + [Http11()])[2] == Http11();
  }

  lemma AddedLineReadBack(plan: Plan, rest: Bytes)
    ensures ParseHeaders(AddedLine(plan) + rest, Trimmed(plan.headers)) == ParseHeaders(rest, ExpectedHeaders(plan))
  {
    match plan.addedLength
    case None => assert [] + rest == rest;
    case Some(n) =>
      HostIsFieldName();
      DigitsOnOneLine(n);
      HeaderLineReadBack(ContentLengthName(), Digits(n, Decimal), rest, Trimmed(plan.headers));
  }

  /** Method and target come back unchanged exactly when both are non-empty and free of
      white space. */
  lemma RequestLinePreserved(plan: Plan, body: Bytes, version: Bytes)
    ensures (match ExpectedRequest(plan, body, version)
             case Some(request) => request.verb == plan.verb && request.target == plan.path
             case None => false)
            <==> IsWord(plan.verb) && IsWord(plan.path)
  {
    hide Fields, IsWord, ExpectedHeaders;
    SingleField(plan.verb);
    SingleField(plan.path);
    var words := Fields(plan.verb) + Fields(plan.path);
    if |words| == 2 && words[0] == plan.verb && words[1] == plan.path {
      TwoWords(plan.verb, plan.path);
    }
  }

  lemma TwoWords(a: Bytes, b: Bytes)
    requires Fields(a) + Fields(b) == [a, b]
    ensures IsWord(a) && IsWord(b)
  {
    SingleField(a);
    SingleField(b);
    var words := Fields(a) + Fields(b);
    assert words[0] == a && words[1] == b;
    assert forall i :: 0 <= i < |words| ==> IsWord(words[i]);
  }

  // ----- build_request

  function Http2(): Bytes {
    Ascii("HTTP/2")
  }

  /** The request that a finished stream makes; None stands for the 400 response. */
  function Built(fields: seq<HeaderField>, body: Bytes): Option<Request> {
    match PlanFor(fields, body) case None => None case Some(plan) => ExpectedRequest(plan, body, Http2())
  }

  /** The loop over the header fields. */
  method MergeAll(fields: seq<HeaderField>) returns (r: Option<Merge>)
    ensures r == MergeFields(NOTHING_MERGED, fields)
  {
    var m := NOTHING_MERGED;
    assert fields[0..] == fields;
    for i := 0 to |fields|
      invariant MergeFields(m, fields[i..]) == MergeFields(NOTHING_MERGED, fields)
    {
      hide MergeField;
      assert fields[i..][1..] == fields[i + 1..];
      var next := MergeField(m, fields[i]);
      if next.None? {
        return None;
      }
      m := next.value;
    }
    r := Some(m);
  }

  lemma {:induction false} PrintOneMore(order: seq<Bytes>, name: Bytes, headers: map<Bytes, Bytes>)
    requires name in headers && forall i :: 0 <= i < |order| ==> order[i] in headers
    ensures PrintHeaders(order + [name], headers) == PrintHeaders(order, headers) + HeaderLine(name, headers[name])
  {
    hide HeaderLine;
    if order == [] {
      assert (order + [name])[1..] == [];
      assert HeaderLine(name, headers[name]) + [] == [] + HeaderLine(name, headers[name]);
    } else {
      assert (order + [name])[1..] == order[1..] + [name];
      PrintOneMore(order[1..], name, headers);
    }
  }

  /** The loop over the header map, which visits the entries in no particular order. */
  method PrintMap(headers: map<Bytes, Bytes>) returns (text: Bytes)
    ensures exists order :: Covers(order, headers) && text == PrintHeaders(order, headers)
  {
    text := [];
    ghost var order: seq<Bytes> := [];
    var left := headers.Keys;
    while left != {}
      invariant left <= headers.Keys
      invariant forall name :: name in headers <==> name in left || name in order
      invariant text == PrintHeaders(order, headers)
      decreases |left|
    {
      var name :| name in left;
      PrintOneMore(order, name, headers);
      text := text + name + [COLON, SPACE] + headers[name] + CRLF;
      assert forall n :: n in order + [name] <==> n in order || n == name;
      left, order := left - {name}, order + [name];
    }
    assert Covers(order, headers);
  }

  /** `build_request`: checks, prints, and reads back. */
  method BuildRequest(fields: seq<HeaderField>, body: Bytes) returns (r: Option<Request>)
    ensures r == Built(fields, body)
  {
    var merged := MergeAll(fields);
    if merged.None? {
      return None;
    }
    var planned := PlanOf(merged.value, body);
    if planned.None? {
      return None;
    }
    var plan := planned.value;
    PlanPrintable(fields, body);
    hide PlanOf, MergeFields, Printable, PrintHeaders, RequestLine, AddedLine, ExpectedHeaders, Fields;
    var headerText := PrintMap(plan.headers);
    ghost var order :| Covers(order, plan.headers) && headerText == PrintHeaders(order, plan.headers);
    var raw := RequestLine(plan) + headerText + AddedLine(plan) + CRLF + body;
    PrintedRequestReadBack(plan, order, body);
    var parsed := ReadRequest(raw);
    if parsed.Err? {
      return None;
    }
    r := Some(parsed.value.(version := Http2()));
  }
}
