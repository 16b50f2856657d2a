/** Which field lists and bodies make a request, and which request it is, in the words of section 8
    of RFC 9113 and without the loop, the plan, or the text in between. */
module Http2Building {
  import opened Wrappers
  import opened Octets
  import opened HpackTable
  import opened RequestText
  import opened Http2Translation
  import opened Http2Merging

  // ----- the rules

  /** No control character but TAB. */
  predicate CleanText(s: Bytes) {
    forall i :: 0 <= i < |s| ==> s[i] == 9 || 0x20 <= s[i] < 0x7f || s[i] > 0x7f
  }

  predicate ColonFirst(name: Bytes) {
    name != [] && name[0] == 58
  }

  /** The fields before have other names. */
  predicate NewName(fields: seq<HeaderField>, i: nat)
    requires i < |fields|
  {
    forall j :: 0 <= j < i ==> fields[j].name != fields[i].name
  }

  /** A pseudo-header is one of four, comes once, and before all other fields. */
  predicate PseudoRule(fields: seq<HeaderField>, i: nat)
    requires i < |fields|
  {
    && fields[i].name in {Ascii(":method"), Ascii(":path"), Ascii(":scheme"), Ascii(":authority")}
    && NewName(fields, i)
    && forall j :: 0 <= j < i ==> ColonFirst(fields[j].name)
  }

  /** Any other field has a token without capitals for a name, is not about the connection, and a
      content-length comes once and is a number. */
  predicate RegularRule(fields: seq<HeaderField>, i: nat)
    requires i < |fields|
  {
    var name, value := fields[i].name, fields[i].value;
    && name != [] && (forall k :: 0 <= k < |name| ==> IsTokenChar(name[k]) && !(65 <= name[k] <= 90))
    && name !in {Ascii("connection"), Ascii("keep-alive"), Ascii("proxy-connection"), Ascii("transfer-encoding"),
                 Ascii("upgrade")}
    && (name == Ascii("te") ==> Lower(value) == Ascii("trailers"))
    && (name == Ascii("content-length") ==> NewName(fields, i) && SizeOf(Trim(value), Decimal).Some?)
  }

  predicate FieldRule(fields: seq<HeaderField>, i: nat)
    requires i < |fields|
  {
    && CleanText(fields[i].value)
    && if ColonFirst(fields[i].name) then PseudoRule(fields, i) else RegularRule(fields, i)
  }

  ghost predicate FieldRules(fields: seq<HeaderField>) {
    forall i :: 0 <= i < |fields| ==> FieldRule(fields, i)
  }

  /** What the whole list and the body have to be like. The method and the path make a request line
      of two words and the version. */
  ghost predicate RequestRules(fields: seq<HeaderField>, body: Bytes) {
    var methods, paths := Values(fields, Ascii(":method")), Values(fields, Ascii(":path"));
    var schemes, authorities := Values(fields, Ascii(":scheme")), Values(fields, Ascii(":authority"));
    var lengths, hosts := Values(fields, Ascii("content-length")), Values(fields, Ascii("host"));
    && FieldRules(fields)
    && methods != [] && paths != [] && (schemes == [Ascii("http")] || schemes == [Ascii("https")])
    && (lengths != [] ==> SizeOf(Trim(lengths[0]), Decimal) == Some(|body|))
    && (authorities != [] && hosts != [] ==> authorities == [Joined(hosts, Ascii(", "))])
    && |Fields(methods[0]) + Fields(paths[0])| == 2
  }

  /** The header of a name: the authority is the host, several values are joined, and a body whose
      length was not declared gets one. */
  ghost predicate RightHeader(headers: map<Bytes, Bytes>, name: Bytes, fields: seq<HeaderField>, body: Bytes) {
    var values, authorities := Values(fields, name), Values(fields, Ascii(":authority"));
    if ColonFirst(name) then name !in headers
    else if name == Ascii("host") && authorities != [] then
      name in headers && headers[name] == Trim(authorities[0])
    else if values != [] then
      && name in headers
      && headers[name] == Trim(Joined(values, if name == Ascii("cookie") then Ascii("; ") else Ascii(", ")))
    else if name == Ascii("content-length") && body != [] then
      name in headers && headers[name] == Digits(|body|, Decimal)
    else name !in headers
  }

  ghost predicate RightRequest(request: Request, fields: seq<HeaderField>, body: Bytes) {
    var methods, paths := Values(fields, Ascii(":method")), Values(fields, Ascii(":path"));
    && methods != [] && paths != []
    && [request.verb, request.target] == Fields(methods[0]) + Fields(paths[0])
    && request.version == Ascii("HTTP/2") && request.body == body
    && forall name :: RightHeader(request.headers, name, fields, body)
  }

  // ----- the rules are those of the loop

  lemma LowerKeeps(name: Bytes)
    ensures HasUppercase(name) <==> Lower(name) != name
  {
    if Lower(name) != name {
      var i :| 0 <= i < |name| && Lower(name)[i] != name[i];
      assert IsUpper(name[i]);
    }
    if i :| 0 <= i < |name| && IsUpper(name[i]) {
      assert Lower(name)[i] == name[i] + 32;
    }
  }

  lemma TokenIsLower(name: Bytes)
    requires !HasUppercase(name)
    ensures ValidHeaderName(name) <==>
        name != [] && forall k :: 0 <= k < |name| ==> IsTokenChar(name[k]) && !(65 <= name[k] <= 90)
  {
  }

  lemma ControlsMean(s: Bytes)
    ensures CleanText(s) <==> !HasControl(s)
  {
  }

  ghost predicate AllLower(fields: seq<HeaderField>) {
    forall i :: 0 <= i < |fields| ==> !HasUppercase(fields[i].name)
  }

  lemma PseudoAlike(fields: seq<HeaderField>, i: nat)
    requires i < |fields| && AllLower(fields)
    ensures NewName(fields, i) <==> FirstOfItsName(fields, i)
    ensures (forall j :: 0 <= j < i ==> ColonFirst(fields[j].name))
        <==> forall j :: 0 <= j < i ==> IsPseudo(NameAt(fields, j))
  {
    hide HasUppercase, Lower;
    forall j | 0 <= j < |fields|
      ensures NameAt(fields, j) == fields[j].name
    {
      LowerKeeps(fields[j].name);
    }
  }

  lemma FieldAlike(fields: seq<HeaderField>, i: nat)
    requires i < |fields| && AllLower(fields)
    ensures FieldRule(fields, i) <==> FieldAllowed(fields, i)
  {
    PseudoAlike(fields, i);
    LowerKeeps(fields[i].name);
    TokenIsLower(fields[i].name);
    ControlsMean(fields[i].value);
    hide NewName, FirstOfItsName, HasControl, CleanText, Lower, SizeOf, Trim, HasUppercase, Ascii, ValidHeaderName;
  }

  lemma FieldIsLower(fields: seq<HeaderField>, i: nat)
    requires i < |fields|
    ensures FieldRule(fields, i) || FieldAllowed(fields, i) ==> !HasUppercase(fields[i].name)
  {
    LowerKeeps(fields[i].name);
    FourNames();
    hide NewName, FirstOfItsName, HasControl, CleanText, SizeOf, Trim, ValidHeaderName, Lower, Ascii;
  }

  lemma FourNames()
    ensures !HasUppercase(Ascii(":method")) && !HasUppercase(Ascii(":path"))
    ensures !HasUppercase(Ascii(":scheme")) && !HasUppercase(Ascii(":authority"))
  {
    assert Ascii(":method") == [58, 109, 101, 116, 104, 111, 100] && Ascii(":path") == [58, 112, 97, 116, 104];
    assert Ascii(":scheme") == [58, 115, 99, 104, 101, 109, 101];
    assert Ascii(":authority") == [58, 97, 117, 116, 104, 111, 114, 105, 116, 121];
    hide Ascii;
  }

  lemma RulesAlike(fields: seq<HeaderField>)
    ensures FieldRules(fields) <==> FieldsAllowed(fields)
  {
    hide FieldRule, FieldAllowed, HasUppercase;
    forall i | 0 <= i < |fields|
      ensures FieldRule(fields, i) || FieldAllowed(fields, i) ==> !HasUppercase(fields[i].name)
      ensures AllLower(fields) ==> (FieldRule(fields, i) <==> FieldAllowed(fields, i))
    {
      FieldIsLower(fields, i);
      if AllLower(fields) {
        FieldAlike(fields, i);
      }
    }
  }

  // ----- the request

  /** A field list and a body make a request if and only if they follow the rules; and then it is
      the one that they describe. */
  lemma BuiltExactly(fields: seq<HeaderField>, body: Bytes)
    ensures Built(fields, body).Some? <==> RequestRules(fields, body)
    ensures Built(fields, body).Some? ==> RightRequest(Built(fields, body).value, fields, body)
  {
    hide FieldRules, FieldsAllowed, PlanFor, Values, Joined, Fields, SizeOf, Trim, RightHeader, ExpectedHeaders, Ascii;
    RulesAlike(fields);
    RequestMeans(fields, body);
    NameConstants();
    if PlanFor(fields, body).Some? {
      forall name
        ensures RightHeader(ExpectedHeaders(PlanFor(fields, body).value), name, fields, body)
      {
        HeaderIsRight(fields, body, name);
      }
    }
  }

  lemma NameConstants()
    ensures MethodName() == Ascii(":method") && PathName() == Ascii(":path") && SchemeName() == Ascii(":scheme")
    ensures AuthorityName() == Ascii(":authority") && HostName() == Ascii("host")
    ensures ContentLengthName() == Ascii("content-length") && Http2() == Ascii("HTTP/2")
    ensures Separator(HostName()) == Ascii(", ") && HostName() != ContentLengthName()
  {
    assert |Ascii("host")| == 4 && |Ascii("cookie")| == 6;
  }

  lemma HeaderIsRight(fields: seq<HeaderField>, body: Bytes, name: Bytes)
    requires PlanFor(fields, body).Some?
    ensures RightHeader(ExpectedHeaders(PlanFor(fields, body).value), name, fields, body)
  {
    var plan := PlanFor(fields, body).value;
    NameConstants();
    PseudoNames();
    RequestMeans(fields, body);
    if ColonFirst(name) {
      NoPseudoHeader(fields, body, name);
    } else {
      RequestHeadersMean(fields, body, name);
      RequestHeadersMean(fields, body, ContentLengthName());
    }
    hide Values, Joined, Trim, Ascii, PlanFor, Digits, RequestAllowed;
  }

  lemma NoPseudoHeader(fields: seq<HeaderField>, body: Bytes, name: Bytes)
    requires PlanFor(fields, body).Some? && IsPseudo(name)
    ensures name !in PlanFor(fields, body).value.headers
  {
    hide FieldsAllowed, MergeField, MergeFields, IsPseudo, Values, Joined;
    MergingMeans(fields);
    PseudoNames();
    assert Holds(MergeFields(NOTHING_MERGED, fields).value, fields, name);
  }

  // ----- the smallest request

  function ThreeFields(verb: Bytes, path: Bytes): seq<HeaderField> {
    [HeaderField(Ascii(":method"), verb), HeaderField(Ascii(":scheme"), Ascii("https")),
     HeaderField(Ascii(":path"), path)]
  }

  lemma ThreeNames()
    ensures Ascii(":method") == [58, 109, 101, 116, 104, 111, 100] && Ascii(":path") == [58, 112, 97, 116, 104]
    ensures Ascii(":scheme") == [58, 115, 99, 104, 101, 109, 101] && |Ascii(":authority")| == 10
    ensures Ascii(":authority")[0] == 58 && Ascii("https") == [104, 116, 116, 112, 115]
    ensures |Ascii("content-length")| == 14 && !ColonFirst(Ascii("content-length"))
  {
  }

  lemma ValuesOfThree(verb: Bytes, path: Bytes, name: Bytes)
    ensures Values(ThreeFields(verb, path), name)
            == if name == Ascii(":method") then [verb] else if name == Ascii(":path") then [path]
               else if name == Ascii(":scheme") then [Ascii("https")] else []
  {
    ThreeNames();
    hide Ascii;
    var fields := ThreeFields(verb, path);
    assert fields[..2] == [fields[0], fields[1]] && fields[..2][..1] == [fields[0]] && fields[..1][..0] == [];
    assert Lower(fields[0].name) == fields[0].name && Lower(fields[1].name) == fields[1].name;
    assert Lower(fields[2].name) == fields[2].name;
    assert Values(fields[..1], name) == if fields[0].name == name then [verb] else [];
    assert Values(fields[..2], name)
        == Values(fields[..1], name) + if fields[1].name == name then [Ascii("https")] else [];
  }

  lemma ThreeFieldsFollowRules(verb: Bytes, path: Bytes)
    requires CleanText(verb) && CleanText(path)
    ensures FieldRules(ThreeFields(verb, path))
  {
    ThreeNames();
    hide Ascii;
  }

  lemma PlainRules(verb: Bytes, path: Bytes, body: Bytes)
    requires IsWord(verb) && IsWord(path) && CleanText(verb) && CleanText(path)
    ensures RequestRules(ThreeFields(verb, path), body) && Fields(verb) == [verb] && Fields(path) == [path]
  {
    var fields := ThreeFields(verb, path);
    ThreeNames();
    ThreeFieldsFollowRules(verb, path);
    ValuesOfThree(verb, path, Ascii(":method"));
    ValuesOfThree(verb, path, Ascii(":path"));
    ValuesOfThree(verb, path, Ascii(":scheme"));
    ValuesOfThree(verb, path, Ascii(":authority"));
    ValuesOfThree(verb, path, Ascii("content-length"));
    ValuesOfThree(verb, path, Ascii("host"));
    OneWord(verb);
    OneWord(path);
    assert |Ascii("host")| == 4;
    hide Ascii, Values, ThreeFields, FieldRules, Fields, Trim, IsWord, CleanText;
  }

  lemma OnlyLength(headers: map<Bytes, Bytes>, name: Bytes, verb: Bytes, path: Bytes, body: Bytes)
    requires RightHeader(headers, name, ThreeFields(verb, path), body)
    ensures name in headers <==> name == Ascii("content-length") && body != []
    ensures name in headers ==> headers[name] == Digits(|body|, Decimal)
  {
    ThreeNames();
    ValuesOfThree(verb, path, name);
    ValuesOfThree(verb, path, Ascii(":authority"));
    hide Ascii, Values, ThreeFields, Trim, Joined, Digits;
  }

  lemma TwoThings(a: Bytes, b: Bytes, c: Bytes, d: Bytes)
    requires [a, b] == [c] + [d]
    ensures a == c && b == d
  {
    assert [a, b][0] == a && [a, b][1] == b;
  }

  function LengthHeader(body: Bytes): map<Bytes, Bytes> {
    if body == [] then map[] else map[Ascii("content-length") := Digits(|body|, Decimal)]
  }

  lemma PlainHeaders(headers: map<Bytes, Bytes>, verb: Bytes, path: Bytes, body: Bytes)
    requires forall name :: RightHeader(headers, name, ThreeFields(verb, path), body)
    ensures headers == LengthHeader(body)
  {
    hide Ascii, ThreeFields, Digits, RightHeader;
    forall name: Bytes
      ensures name in headers <==> name in LengthHeader(body)
      ensures name in headers ==> headers[name] == LengthHeader(body)[name]
    {
      OnlyLength(headers, name, verb, path, body);
    }
  }

  lemma PlainIsRight(request: Request, verb: Bytes, path: Bytes, body: Bytes)
    requires RightRequest(request, ThreeFields(verb, path), body) && Fields(verb) == [verb] && Fields(path) == [path]
    ensures request == Request(verb, path, Ascii("HTTP/2"), LengthHeader(body), body)
  {
    ThreeNames();
    hide Ascii, Values, ThreeFields, Fields, RightHeader, LengthHeader;
    ValuesOfThree(verb, path, Ascii(":method"));
    ValuesOfThree(verb, path, Ascii(":path"));
    TwoThings(request.verb, request.target, verb, path);
    PlainHeaders(request.headers, verb, path, body);
  }

  /** A method and a path of one word each, and a scheme: that is a request, for every body; its only
      header is the length of a body that is there. */
  lemma PlainRequestIsBuilt(verb: Bytes, path: Bytes, body: Bytes)
    requires IsWord(verb) && IsWord(path) && CleanText(verb) && CleanText(path)
    ensures Built(ThreeFields(verb, path), body)
        == Some(Request(verb, path, Ascii("HTTP/2"), LengthHeader(body), body))
  {
    hide ThreeFields, RequestRules, Fields, Built, IsWord, CleanText, RightRequest, LengthHeader, Ascii;
    PlainRules(verb, path, body);
    BuiltExactly(ThreeFields(verb, path), body);
    PlainIsRight(Built(ThreeFields(verb, path), body).value, verb, path, body);
  }
}
