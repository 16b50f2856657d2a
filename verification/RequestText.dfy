/** Reading a request from its HTTP/1 text, header section first. */
module RequestText {
  import opened Wrappers
  import opened Octets

  datatype Request = Request(verb: Bytes, target: Bytes, version: Bytes, headers: map<Bytes, Bytes>, body: Bytes)

  datatype ParseError = EmptyRequest | MalformedRequestLine | UnsupportedVersion | MalformedHeader

  function ContentLengthName(): Bytes {
    Ascii("content-length")
  }

  // ----- words

  /** The length of the run of non-space octets at the front. */
  function WordLength(s: Bytes): (n: nat)
    ensures n <= |s| && (forall i :: 0 <= i < n ==> !IsSpace(s[i])) && (n < |s| ==> IsSpace(s[n]))
  {
    if s == [] || IsSpace(s[0]) then 0 else 1 + WordLength(s[1..])
  }

  /** The words that repeated `>>` extracts from a line. */
  function Fields(s: Bytes): seq<Bytes>
    decreases |s|
  {
    if s == [] then []
    else if IsSpace(s[0]) then Fields(s[1..])
    else [s[..WordLength(s)]] + Fields(s[WordLength(s)..])
  }

  predicate IsWord(s: Bytes) {
    s != [] && forall i :: 0 <= i < |s| ==> !IsSpace(s[i])
  }

  lemma {:induction false} WordsAround(a: Bytes, b: Bytes)
    ensures Fields(a + [SPACE] + b) == Fields(a) + Fields(b)
    decreases |a|
  {
    hide WordLength;
    var s := a + [SPACE] + b;
    if a == [] {
      assert s[1..] == b;
    } else if IsSpace(a[0]) {
      assert s[1..] == a[1..] + [SPACE] + b;
      WordsAround(a[1..], b);
    } else {
      var n := WordLength(a);
      assert s[n] == (a + [SPACE])[n];
      LengthIs(s, n);
      SlicesAround(a, b, n);
      WordsAround(a[n..], b);
      assert [a[..n]] + (Fields(a[n..]) + Fields(b)) == [a[..n]] + Fields(a[n..]) + Fields(b);
    }
  }

  lemma SlicesAround(a: Bytes, b: Bytes, n: nat)
    requires n <= |a|
    ensures (a + [SPACE] + b)[..n] == a[..n] && (a + [SPACE] + b)[n..] == a[n..] + [SPACE] + b
  {
  }

  lemma {:induction false} LengthIs(s: Bytes, n: nat)
    requires n < |s| && IsSpace(s[n]) && forall i :: 0 <= i < n ==> !IsSpace(s[i])
    ensures WordLength(s) == n
  {
    if n > 0 {
      LengthIs(s[1..], n - 1);
    }
  }

  lemma OneWord(s: Bytes)
    requires IsWord(s)
    ensures Fields(s) == [s]
  {
    assert WordLength(s) == |s|;
    assert s[|s|..] == [] && s[..|s|] == s;
  }

  /** A line that is one word reads as itself; any other reads as something else. */
  lemma {:induction false} SingleField(s: Bytes)
    ensures IsWord(s) <==> Fields(s) == [s]
    ensures forall i :: 0 <= i < |Fields(s)| ==> IsWord(Fields(s)[i])
    decreases |s|
  {
    if IsWord(s) {
      OneWord(s);
    } else if s != [] {
      SingleField(if IsSpace(s[0]) then s[1..] else s[WordLength(s)..]);
    }
  }

  // ----- lines

  function FirstLine(s: Bytes): Bytes {
    match Find(s, LF) case None => s case Some(i) => s[..i]
  }

  function AfterLine(s: Bytes): (r: Bytes)
    ensures s != [] ==> |r| < |s|
  {
    match Find(s, LF) case None => [] case Some(i) => s[i + 1..]
  }

  function StripCr(line: Bytes): Bytes {
    if line != [] && line[|line| - 1] == CR then line[..|line| - 1] else line
  }

  lemma LineEndsAt(line: Bytes, rest: Bytes)
    requires LF !in line
    ensures FirstLine(line + [LF] + rest) == line && AfterLine(line + [LF] + rest) == rest
  {
    var s := line + [LF] + rest;
    assert s[..|line|] == line;
    FindIs(s, LF, |line|);
    assert s[|line| + 1..] == rest;
  }

  // ----- the header section

  /** Reads header lines into `headers` up to the first empty line; what follows is the body. */
  function ParseHeaders(s: Bytes, headers: map<Bytes, Bytes>): Result<(map<Bytes, Bytes>, Bytes), ParseError>
    decreases |s|
  {
    if s == [] then Ok((headers, []))
    else
      var line := StripCr(FirstLine(s));
      if line == [] then Ok((headers, AfterLine(s)))
      else
        match Find(line, COLON)
        case None => Err(MalformedHeader)
        case Some(i) =>
          var name := Lower(Trim(line[..i]));
          if name == [] then Err(MalformedHeader)
          else ParseHeaders(AfterLine(s), headers[name := Trim(line[i + 1..])])
  }

  function Http11(): Bytes {
    Ascii("HTTP/1.1")
  }

  function Http10(): Bytes {
    Ascii("HTTP/1.0")
  }

  function ParseRequest(raw: Bytes): Result<Request, ParseError> {
    if raw == [] then Err(EmptyRequest)
    else
      var words := Fields(StripCr(FirstLine(raw)));
      if |words| != 3 then Err(MalformedRequestLine)
      else if words[2] != Http11() && words[2] != Http10() then Err(UnsupportedVersion)
      else
        match ParseHeaders(AfterLine(raw), map[])
        case Ok((headers, body)) => Ok(Request(words[0], words[1], words[2], headers, body))
        case Err(e) => Err(e)
  }

  /** `parse_request`, line by line. */
  method ReadRequest(raw: Bytes) returns (r: Result<Request, ParseError>)
    ensures r == ParseRequest(raw)
  {
    if raw == [] {
      return Err(EmptyRequest);
    }
    var words := Fields(StripCr(FirstLine(raw)));
    if |words| != 3 {
      return Err(MalformedRequestLine);
    }
    if words[2] != Http11() && words[2] != Http10() {
      return Err(UnsupportedVersion);
    }
    var headers: map<Bytes, Bytes> := map[];
    var input := AfterLine(raw);
    while input != []
      invariant ParseHeaders(AfterLine(raw), map[]) == ParseHeaders(input, headers)
      decreases |input|
    {
      var line := StripCr(FirstLine(input));
      input := AfterLine(input);
      if line == [] {
        return Ok(Request(words[0], words[1], words[2], headers, input));
      }
      var separator := Find(line, COLON);
      if separator.None? {
        return Err(MalformedHeader);
      }
      var name := Lower(Trim(line[..separator.value]));
      var value := Trim(line[separator.value + 1..]);
      if name == [] {
        return Err(MalformedHeader);
      }
      headers := headers[name := value];
    }
    r := Ok(Request(words[0], words[1], words[2], headers, []));
  }

  // ----- the text that a printer makes

  /** A lower-case header name. */
  predicate IsFieldName(name: Bytes) {
    ValidHeaderName(name) && forall i :: 0 <= i < |name| ==> !IsUpper(name[i])
  }

  /** No line break inside. */
  predicate OnOneLine(s: Bytes) {
    LF !in s && CR !in s
  }

  function HeaderLine(name: Bytes, value: Bytes): Bytes {
    name + [COLON, SPACE] + value + CRLF
  }

  lemma FieldNameKept(name: Bytes)
    requires IsFieldName(name)
    ensures Lower(Trim(name)) == name && COLON !in name && OnOneLine(name)
  {
    TrimIdentity(name);
    assert Lower(name) == name;
  }

  /** A printed header line is read back as its name and its trimmed value. */
  lemma HeaderLineReadBack(name: Bytes, value: Bytes, rest: Bytes, headers: map<Bytes, Bytes>)
    requires IsFieldName(name) && OnOneLine(value)
    ensures ParseHeaders(HeaderLine(name, value) + rest, headers) == ParseHeaders(rest, headers[name := Trim(value)])
  {
    FieldNameKept(name);
    var text := name + [COLON] + ([SPACE] + value);
    assert HeaderLine(name, value) + rest == text + [CR] + [LF] + rest;
    LineEndsAt(text + [CR], rest);
    assert StripCr(text + [CR]) == text;
    assert text[..|name|] == name && text[|name| + 1..] == [SPACE] + value;
    FindIs(text, COLON, |name|);
    TrimAfterSpace(value);
  }

  lemma BlankLineReadBack(body: Bytes, headers: map<Bytes, Bytes>)
    ensures ParseHeaders(CRLF + body, headers) == Ok((headers, body))
  {
    assert CRLF + body == [CR] + [LF] + body;
    LineEndsAt([CR], body);
  }
}
