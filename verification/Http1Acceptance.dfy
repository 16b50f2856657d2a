/** Which header sections the framer accepts, line by line (sections 5, 6.1, 6.2 and 6.3 of RFC 9112),
    and that requests which are printed by the rules are framed. */
module Http1Acceptance {
  import opened Wrappers
  import opened Octets
  import opened RequestText
  import opened ChunkedDecoding
  import opened Http1Framing
  import opened Http1Agreement

  /** What can be the lines of a header section: none has a line end inside, and only the first can
      be empty. */
  ghost predicate AreLines(lines: seq<Bytes>) {
    lines != [] && forall i :: 0 <= i < |lines| ==> WithoutCrlf(lines[i]) && (i > 0 ==> lines[i] != [])
  }

  // ----- the rules

  /** No control character but TAB; so neither CR nor LF. */
  predicate CleanLine(line: Bytes) {
    forall i :: 0 <= i < |line| ==> line[i] == 9 || (0x20 <= line[i] != 0x7f)
  }

  /** A token, a colon, and anything. */
  predicate IsFieldAt(line: Bytes, i: nat) {
    0 < i < |line| && line[i] == COLON && forall j :: 0 <= j < i ==> IsTokenChar(line[j])
  }

  ghost predicate IsFieldLine(line: Bytes) {
    exists i :: IsFieldAt(line, i)
  }

  /** The values of the fields with a name, in the order of their lines. */
  function ValuesOf(lines: seq<Bytes>, name: Bytes): seq<Bytes> {
    if lines == [] then []
    else
      match Find(lines[0], COLON)
      case None => ValuesOf(lines[1..], name)
      case Some(i) =>
        if Lower(lines[0][..i]) == name then [Trim(lines[0][i + 1..])] + ValuesOf(lines[1..], name)
        else ValuesOf(lines[1..], name)
  }

  predicate IsBlank(s: Bytes) {
    forall i :: 0 <= i < |s| ==> s[i] == COMMA || IsSpace(s[i])
  }

  /** The coding "chunked" in any case, with nothing but commas and white space around it. */
  predicate JustChunkedAt(value: Bytes, a: nat, b: nat) {
    a <= b <= |value| && Lower(value[a..b]) == Ascii("chunked") && IsBlank(value[..a]) && IsBlank(value[b..])
  }

  ghost predicate JustChunked(value: Bytes) {
    exists a, b :: JustChunkedAt(value, a, b)
  }

  /** What the framing headers announce: no body, one length, or the chunked coding, and not both. */
  ghost predicate Announce(fields: seq<Bytes>, a: Analysis) {
    var lengths, codings := ValuesOf(fields, Ascii("content-length")), ValuesOf(fields, Ascii("transfer-encoding"));
    || (lengths == [] && codings == [] && a == Analysis(false, None))
    || (|lengths| == 1 && codings == [] && a == Analysis(false, SizeOf(lengths[0], Decimal)) && a.contentLength.Some?)
    || (lengths == [] && |codings| == 1 && JustChunked(codings[0]) && a == Analysis(true, None))
  }

  /** The rules for a header section: clean lines; and, behind a request line, fields whose framing
      headers announce `a`. */
  ghost predicate Accepts(lines: seq<Bytes>, a: Analysis)
    requires lines != []
  {
    && (forall i :: 0 <= i < |lines| ==> CleanLine(lines[i]))
    && if lines[0] == [] then a == Analysis(false, None)
       else (forall i :: 1 <= i < |lines| ==> IsFieldLine(lines[i])) && Announce(lines[1..], a)
  }

  // ----- characters

  lemma PairedInTwo(line: Bytes, rest: Bytes)
    requires WithoutCrlf(line)
    ensures Paired(line + CRLF + rest) <==> CR !in line && LF !in line && Paired(rest)
  {
    var s := line + CRLF + rest;
    assert forall i :: 0 <= i < |line| ==> s[i] == line[i];
    assert forall i :: 0 <= i < |rest| ==> s[|line| + 2 + i] == rest[i];
    assert s[|line|] == CR && s[|line| + 1] == LF;
    if Paired(s) {
      forall i | 0 <= i < |line|
        ensures line[i] != CR && line[i] != LF
      {
        assert PairedAt(s, i);
        assert !CrlfAt(line, i) && !CrlfAt(line, i - 1);
      }
      forall i | 0 <= i < |rest|
        ensures PairedAt(rest, i)
      {
        assert PairedAt(s, |line| + 2 + i);
      }
    }
    if CR !in line && LF !in line && Paired(rest) {
      forall i | 0 <= i < |s|
        ensures PairedAt(s, i)
      {
        if i >= |line| + 2 {
          assert PairedAt(rest, i - |line| - 2);
        }
      }
    }
  }

  lemma ControlsInTwo(line: Bytes, rest: Bytes)
    ensures NoOtherControls(line + CRLF + rest) <==> NoOtherControls(line) && NoOtherControls(rest)
  {
    var s := line + CRLF + rest;
    assert forall i :: 0 <= i < |line| ==> s[i] == line[i];
    assert forall i :: 0 <= i < |rest| ==> s[|line| + 2 + i] == rest[i];
    assert s[|line|] == CR && s[|line| + 1] == LF;
    if NoOtherControls(line) && NoOtherControls(rest) {
      forall i | 0 <= i < |s|
        ensures s[i] == CR || s[i] == LF || s[i] == TAB || !IsControl(s[i])
      {
        if i >= |line| + 2 {
          assert s[i] == rest[i - |line| - 2];
        }
      }
    }
  }

  lemma CleanMeans(line: Bytes)
    ensures CleanLine(line) <==> CR !in line && LF !in line && NoOtherControls(line)
  {
    if CleanLine(line) {
      assert CR !in line && LF !in line;
    }
  }

  lemma {:induction false} CharactersExactly(lines: seq<Bytes>)
    requires forall i :: 0 <= i < |lines| ==> WithoutCrlf(lines[i])
    ensures Paired(Section(lines)) && NoOtherControls(Section(lines))
        <==> forall i :: 0 <= i < |lines| ==> CleanLine(lines[i])
    decreases |lines|
  {
    hide CleanLine, WithoutCrlf, Paired, NoOtherControls;
    if lines == [] {
      NothingUnpaired();
    } else {
      PairedInTwo(lines[0], Section(lines[1..]));
      ControlsInTwo(lines[0], Section(lines[1..]));
      CleanMeans(lines[0]);
      assert forall i :: 0 <= i < |lines[1..]| ==> lines[1..][i] == lines[i + 1];
      CharactersExactly(lines[1..]);
      assert forall i :: 0 < i < |lines| ==> lines[i] == lines[1..][i - 1];
    }
  }

  lemma NothingUnpaired()
    ensures Paired(CRLF) && NoOtherControls(CRLF)
  {
  }

  // ----- lines

  /** The first colon ends the name. */
  lemma NameEnds(line: Bytes)
    ensures IsFieldLine(line) <==> Find(line, COLON).Some? && IsFieldAt(line, Find(line, COLON).value)
  {
    if IsFieldLine(line) {
      var k: nat :| IsFieldAt(line, k);
      var i: nat := Find(line, COLON).value;
      hide Find;
      assert k == i by { assert forall j :: 0 <= j < i ==> line[j] == line[..i][j]; }
    }
  }

  lemma NameIsToken(line: Bytes, i: nat)
    requires i < |line| && line[i] == COLON
    ensures ValidHeaderName(line[..i]) <==> IsFieldAt(line, i)
    ensures IsFieldAt(line, i) ==> line[0] != SPACE && line[0] != TAB
  {
    assert forall j :: 0 <= j < i ==> line[j] == line[..i][j];
    if IsFieldAt(line, i) {
      assert IsTokenChar(line[0]);
    }
  }

  lemma TrimmedIsClean(line: Bytes, i: nat)
    requires CleanLine(line) && i <= |line|
    ensures CleanValue(Trim(line[i..]))
  {
    TrimKeepsOctets(line[i..]);
    var value := Trim(line[i..]);
    hide Trim;
    forall k | 0 <= k < |value|
      ensures value[k] == TAB || !IsControl(value[k])
    {
      assert value[k] in line[i..];
    }
  }

  /** A clean line is taken as a field exactly when it is a token, a colon and anything. */
  lemma FieldLineExactly(line: Bytes)
    requires CleanLine(line) && line != []
    ensures SplitLine(line).Some? <==> IsFieldLine(line)
    ensures SplitLine(line).Some? ==>
              && Find(line, COLON).Some?
              && var i: nat := Find(line, COLON).value; SplitLine(line).value == (Lower(line[..i]), Trim(line[i + 1..]))
  {
    NameEnds(line);
    if Find(line, COLON).Some? {
      var i: nat := Find(line, COLON).value;
      NameIsToken(line, i);
      TrimmedIsClean(line, i + 1);
    }
    hide Trim, Find, CleanLine, CleanValue, IsFieldAt, IsFieldLine, ValidHeaderName, Lower;
  }

  /** The two lists of a reading, with more values behind them. */
  function Extended(f: Framing, lines: seq<Bytes>): Framing {
    Framing(f.lengths + ValuesOf(lines, Ascii("content-length")),
            f.encodings + ValuesOf(lines, Ascii("transfer-encoding")))
  }

  lemma NamesDiffer()
    ensures Ascii("content-length") != Ascii("transfer-encoding")
  {
    assert |Ascii("content-length")| != |Ascii("transfer-encoding")|;
  }

  /** Of the values of a name, those of the first line come first. */
  lemma ValuesJoined(before: seq<Bytes>, lines: seq<Bytes>, name: Bytes, field: (Bytes, Bytes))
    requires lines != [] && Find(lines[0], COLON).Some?
    requires var i: nat := Find(lines[0], COLON).value; field == (Lower(lines[0][..i]), Trim(lines[0][i + 1..]))
    ensures before + ValuesOf(lines, name)
            == (if field.0 == name then before + [field.1] else before) + ValuesOf(lines[1..], name)
  {
    ValuesByLine(lines, name);
    hide Find, Trim, Lower, ValuesOf;
    FirstJoined(before, field.1, ValuesOf(lines[1..], name));
  }

  lemma FirstJoined(before: seq<Bytes>, value: Bytes, values: seq<Bytes>)
    ensures before + ([value] + values) == before + [value] + values
  {
  }

  lemma ExtendedByLine(f: Framing, lines: seq<Bytes>)
    requires lines != [] && lines[0] != [] && CleanLine(lines[0]) && SplitLine(lines[0]).Some?
    ensures Extended(f, lines) == Extended(Noted(f, SplitLine(lines[0]).value), lines[1..])
  {
    FieldLineExactly(lines[0]);
    NamesDiffer();
    hide SplitLine, Find, Trim, Lower, CleanLine, ValuesOf, Ascii;
    var field := SplitLine(lines[0]).value;
    ValuesJoined(f.lengths, lines, Ascii("content-length"), field);
    ValuesJoined(f.encodings, lines, Ascii("transfer-encoding"), field);
  }

  lemma {:induction false} LinesExactly(lines: seq<Bytes>, f: Framing)
    requires forall i :: 0 <= i < |lines| ==> CleanLine(lines[i]) && WithoutCrlf(lines[i]) && lines[i] != []
    ensures ReadLines(Section(lines), f).Some? <==> forall i :: 0 <= i < |lines| ==> IsFieldLine(lines[i])
    ensures ReadLines(Section(lines), f).Some? ==> ReadLines(Section(lines), f).value == Extended(f, lines)
    decreases |lines|
  {
    hide CleanLine, WithoutCrlf, SplitLine, Find, FindCrlf, Trim, Noted, IsFieldLine, Lower, Ascii;
    if lines == [] {
      NoLineLeft(f);
    } else {
      var rest := Section(lines[1..]);
      LineFound(lines[0], rest);
      FieldLineExactly(lines[0]);
      assert forall i :: 0 <= i < |lines[1..]| ==> lines[1..][i] == lines[i + 1];
      if SplitLine(lines[0]).Some? {
        ExtendedByLine(f, lines);
        LinesExactly(lines[1..], Noted(f, SplitLine(lines[0]).value));
        assert forall i :: 0 < i < |lines| ==> lines[i] == lines[1..][i - 1];
      }
    }
  }

  lemma NoLineLeft(f: Framing)
    ensures ReadLines(Section([]), f) == Some(f) && Extended(f, []) == f
  {
    FindCrlfIs(CRLF, 0);
  }

  lemma HeadExactly(lines: seq<Bytes>)
    requires AreLines(lines) && forall i :: 0 <= i < |lines| ==> CleanLine(lines[i])
    ensures if lines[0] == [] then ReadHead(Section(lines)) == Some(NO_FRAMING)
            else
              && (ReadHead(Section(lines)).Some? <==> forall i :: 1 <= i < |lines| ==> IsFieldLine(lines[i]))
              && (ReadHead(Section(lines)).Some? ==>
                    ReadHead(Section(lines)).value == Extended(NO_FRAMING, lines[1..]))
  {
    hide CleanLine, WithoutCrlf, FindCrlf, IsFieldLine, ReadLines, Extended;
    var rest := Section(lines[1..]);
    LineFound(lines[0], rest);
    assert forall i :: 0 <= i < |lines[1..]| ==> lines[1..][i] == lines[i + 1];
    LinesExactly(lines[1..], NO_FRAMING);
    assert forall i :: 1 <= i < |lines| ==> lines[i] == lines[1..][i - 1];
  }

  // ----- the coding

  lemma {:induction false} ItemsOfBlank(s: Bytes)
    requires IsBlank(s)
    ensures Items(s) == []
    decreases |s|
  {
    match Find(s, COMMA)
    case None => SpacesTrimmed(s);
    case Some(i) =>
      SpacesTrimmed(s[..i]);
      ItemsOfBlank(s[i + 1..]);
  }

  lemma SpacesTrimmed(s: Bytes)
    requires IsBlank(s) && COMMA !in s
    ensures Trim(s) == []
  {
    TrimKeepsOctets(s);
    hide Trim;
    if Trim(s) != [] {
      SomeOctet(Trim(s), s);
    }
  }

  lemma SomeOctet(t: Bytes, s: Bytes)
    requires t != [] && forall b: Byte :: b in t ==> b in s
    ensures t[0] in s
  {
  }

  lemma {:induction false} BlankHasNoItem(s: Bytes)
    requires Items(s) == []
    ensures IsBlank(s)
    decreases |s|
  {
    match Find(s, COMMA)
    case None => NothingTrimmed(s);
    case Some(i) =>
      NothingTrimmed(s[..i]);
      BlankHasNoItem(s[i + 1..]);
      forall k | 0 <= k < |s|
        ensures s[k] == COMMA || IsSpace(s[k])
      {
        assert k < i ==> s[k] == s[..i][k];
        assert k > i ==> s[k] == s[i + 1..][k - i - 1];
      }
  }

  lemma NothingTrimmed(s: Bytes)
    requires Trim(s) == []
    ensures forall i :: 0 <= i < |s| ==> IsSpace(s[i])
  {
    var a, b := TrimmedAt(s);
    hide Trim;
    assert a == b;
  }

  predicate IsPlain(s: Bytes) {
    forall i :: 0 <= i < |s| ==> !IsSpace(s[i]) && s[i] != COMMA
  }

  lemma WordWithoutComma(value: Bytes, a: nat, b: nat)
    requires a < b <= |value| && IsBlank(value[..a]) && IsBlank(value[b..]) && IsPlain(value[a..b])
    requires COMMA !in value
    ensures Trim(value) == value[a..b] != []
  {
    hide Trim;
    SpacesAround(value, a, b);
    PlainEnds(value, a, b);
    TrimIs(value, a, b);
  }

  lemma BlanksBehindWord(value: Bytes, a: nat, b: nat, i: nat)
    requires a < b <= i < |value| && value[i] == COMMA && IsBlank(value[b..])
    ensures IsBlank(value[..i][b..]) && IsBlank(value[i + 1..])
    ensures value[..i][..a] == value[..a] && value[..i][a..b] == value[a..b]
  {
    hide IsBlank;
    WordBefore(value, i, a, b);
    BlankInTwo(value[b..], i - b);
  }

  lemma BlanksBeforeWord(value: Bytes, a: nat, b: nat, i: nat)
    requires i < a < b <= |value| && value[i] == COMMA && IsBlank(value[..a])
    ensures IsBlank(value[..i]) && IsBlank(value[i + 1..][..a - i - 1])
    ensures value[i + 1..][b - i - 1..] == value[b..] && value[i + 1..][a - i - 1..b - i - 1] == value[a..b]
  {
    hide IsBlank;
    WordBehind(value, i, a, b);
    BlankInTwo(value[..a], i);
  }

  lemma ItemsOfWord(value: Bytes)
    requires Find(value, COMMA) == None && Trim(value) != []
    ensures Items(value) == [Trim(value)]
  {
    hide Trim;
  }

  lemma OnlyFirst(value: Bytes, i: nat)
    requires Find(value, COMMA) == Some(i) && Trim(value[..i]) != [] && Items(value[i + 1..]) == []
    ensures Items(value) == [Trim(value[..i])]
  {
    ItemsUnfold(value, i);
    hide Trim, Items, Find;
    assert [Trim(value[..i])] + [] == [Trim(value[..i])];
  }

  /** A word between blanks is the only item. */
  lemma {:induction false} OneItem(value: Bytes, a: nat, b: nat)
    requires a < b <= |value| && IsBlank(value[..a]) && IsBlank(value[b..]) && IsPlain(value[a..b])
    ensures Items(value) == [value[a..b]]
    decreases |value|
  {
    hide Find, Items, Trim, IsBlank, IsPlain;
    if Find(value, COMMA).None? {
      WordWithoutComma(value, a, b);
      ItemsOfWord(value);
    } else {
      var i: nat := Find(value, COMMA).value;
      CommaOutside(value, a, b, i);
      if i < a {
        BlanksBeforeWord(value, a, b, i);
        SpacesTrimmed(value[..i]);
        ItemsByComma(value, i);
        OneItem(value[i + 1..], a - i - 1, b - i - 1);
      } else {
        BlanksBehindWord(value, a, b, i);
        WordWithoutComma(value[..i], a, b);
        ItemsOfBlank(value[i + 1..]);
        OnlyFirst(value, i);
      }
    }
  }

  lemma PlainEnds(s: Bytes, a: nat, b: nat)
    requires a < b <= |s| && IsPlain(s[a..b])
    ensures !IsSpace(s[a]) && !IsSpace(s[b - 1])
  {
    assert s[a] == s[a..b][0] && s[b - 1] == s[a..b][b - a - 1];
  }

  lemma CommaOutside(s: Bytes, a: nat, b: nat, i: nat)
    requires a <= b <= |s| && i < |s| && s[i] == COMMA
    ensures IsPlain(s[a..b]) ==> i < a || i >= b
  {
    if a <= i < b {
      assert s[a..b][i - a] == s[i];
    }
  }

  /** The parts of a text with a word in it, around a position before or behind the word. */
  lemma WordBehind(s: Bytes, i: nat, a: nat, b: nat)
    requires i < a <= b <= |s|
    ensures s[..a][..i] == s[..i] && s[..a][i + 1..] == s[i + 1..][..a - i - 1]
    ensures s[i + 1..][a - i - 1..b - i - 1] == s[a..b] && s[i + 1..][b - i - 1..] == s[b..]
    ensures s[..a][i] == s[i]
    ensures forall k :: a <= k < b ==> s[i + 1..][k - i - 1] == s[k]
  {
  }

  lemma WordBefore(s: Bytes, i: nat, a: nat, b: nat)
    requires a <= b <= i < |s|
    ensures s[b..][..i - b] == s[..i][b..] && s[b..][i - b + 1..] == s[i + 1..]
    ensures s[..i][..a] == s[..a] && s[..i][a..b] == s[a..b]
    ensures s[b..][i - b] == s[i]
  {
  }

  lemma SpacesAround(s: Bytes, a: nat, b: nat)
    requires a <= b <= |s| && COMMA !in s && IsBlank(s[..a]) && IsBlank(s[b..])
    ensures (forall i :: 0 <= i < a ==> IsSpace(s[i])) && forall i :: b <= i < |s| ==> IsSpace(s[i])
  {
    assert forall i :: 0 <= i < a ==> s[i] == s[..a][i];
    assert forall i :: b <= i < |s| ==> s[i] == s[b..][i - b];
  }

  lemma BlankInTwo(s: Bytes, i: nat)
    requires i < |s| && s[i] == COMMA
    ensures IsBlank(s) <==> IsBlank(s[..i]) && IsBlank(s[i + 1..])
  {
    if IsBlank(s[..i]) && IsBlank(s[i + 1..]) {
      forall k | 0 <= k < |s|
        ensures s[k] == COMMA || IsSpace(s[k])
      {
        assert k < i ==> s[k] == s[..i][k];
        assert k > i ==> s[k] == s[i + 1..][k - i - 1];
      }
    }
  }

  lemma ItemsUnfold(value: Bytes, i: nat)
    requires Find(value, COMMA) == Some(i)
    ensures Items(value) == Item(value[..i]) + Items(value[i + 1..])
  {
    hide Trim;
  }

  lemma ItemsByComma(value: Bytes, i: nat)
    requires Find(value, COMMA) == Some(i)
    ensures Items(value) == Item(value[..i]) + Items(value[i + 1..])
    ensures Trim(value[..i]) == [] ==> Items(value) == Items(value[i + 1..])
    ensures Trim(value[..i]) != [] && |Items(value)| == 1 ==>
              Items(value[i + 1..]) == [] && Items(value)[0] == Trim(value[..i])
  {
    hide Trim, Items, Find;
    ItemsUnfold(value, i);
  }

  lemma ItemWithoutComma(value: Bytes)
    requires Find(value, COMMA) == None && |Items(value)| == 1
    ensures Items(value)[0] == Trim(value)
  {
  }

  lemma WordInFront(value: Bytes, i: nat) returns (a: nat, b: nat)
    requires i < |value| && value[i] == COMMA && IsBlank(value[i + 1..])
    ensures a <= b <= |value| && Trim(value[..i]) == value[a..b] && IsBlank(value[..a]) && IsBlank(value[b..])
  {
    var front := value[..i];
    a, b := TrimmedAt(front);
    hide Trim, IsBlank;
    WordBefore(value, i, a, b);
    SpacesInSlices(front, a, b);
    BlankInTwo(value[b..], i - b);
  }

  lemma BlankBefore(value: Bytes, i: nat, c: nat, d: nat)
    requires i < |value| && value[i] == COMMA && IsBlank(value[..i]) && c <= d <= |value| - i - 1
    requires IsBlank(value[i + 1..][..c]) && IsBlank(value[i + 1..][d..])
    ensures IsBlank(value[..c + i + 1]) && IsBlank(value[d + i + 1..])
    ensures value[i + 1..][c..d] == value[c + i + 1..d + i + 1]
  {
    hide IsBlank;
    WordBehind(value, i, c + i + 1, d + i + 1);
    BlankInTwo(value[..c + i + 1], i);
  }

  /** The only item is a word between blanks. */
  lemma {:induction false} ItemAt(value: Bytes) returns (a: nat, b: nat)
    requires |Items(value)| == 1
    ensures a <= b <= |value| && Items(value)[0] == value[a..b] && IsBlank(value[..a]) && IsBlank(value[b..])
    decreases |value|
  {
    hide Find, Items, Trim, IsBlank;
    if Find(value, COMMA).None? {
      ItemWithoutComma(value);
      a, b := TrimmedAt(value);
      SpacesInSlices(value, a, b);
    } else {
      var i: nat := Find(value, COMMA).value;
      ItemsByComma(value, i);
      if Trim(value[..i]) == [] {
        ItemsOfBlankFront(value[..i]);
        var c, d := ItemAt(value[i + 1..]);
        a, b := c + i + 1, d + i + 1;
        BlankBefore(value, i, c, d);
      } else {
        BlankHasNoItem(value[i + 1..]);
        a, b := WordInFront(value, i);
      }
    }
  }

  lemma SpacesInSlices(s: Bytes, a: nat, b: nat)
    requires a <= b <= |s|
    requires (forall i :: 0 <= i < a ==> IsSpace(s[i])) && forall i :: b <= i < |s| ==> IsSpace(s[i])
    ensures IsBlank(s[..a]) && IsBlank(s[b..])
  {
  }

  lemma ItemsOfBlankFront(s: Bytes)
    requires Trim(s) == []
    ensures IsBlank(s)
  {
    NothingTrimmed(s);
  }

  lemma ChunkedIsWord(word: Bytes)
    requires Lower(word) == Ascii("chunked")
    ensures |word| == 7 && IsPlain(word)
  {
    assert Ascii("chunked") == [99, 104, 117, 110, 107, 101, 100];
    assert |Lower(word)| == 7;
    assert forall i :: 0 <= i < 7 ==> Lower(word)[i] == ToLower(word[i]);
  }

  /** The one item of the list is the chunked coding exactly when nothing but commas and white space
      is around it. */
  lemma ChunkedExactly(value: Bytes)
    ensures IsChunkedCoding(value) <==> JustChunked(value)
  {
    if JustChunked(value) {
      var a: nat, b: nat :| JustChunkedAt(value, a, b);
      ChunkedIsWord(value[a..b]);
      OneItem(value, a, b);
    }
    if IsChunkedCoding(value) {
      hide Items, Lower;
      var a, b := ItemAt(value);
      assert JustChunkedAt(value, a, b);
    }
  }

  // ----- acceptance

  lemma {:induction false} ValuesAreTrimmed(lines: seq<Bytes>, name: Bytes, i: nat)
    requires i < |ValuesOf(lines, name)|
    ensures Trim(ValuesOf(lines, name)[i]) == ValuesOf(lines, name)[i]
    decreases |lines|
  {
    hide Trim, Lower;
    match Find(lines[0], COLON)
    case None => ValuesAreTrimmed(lines[1..], name, i);
    case Some(k) =>
      if Lower(lines[0][..k]) == name {
        TrimTwice(lines[0][k + 1..]);
        if i > 0 {
          ValuesAreTrimmed(lines[1..], name, i - 1);
        }
      } else {
        ValuesAreTrimmed(lines[1..], name, i);
      }
  }

  lemma AnnouncedExactly(fields: seq<Bytes>, a: Analysis)
    ensures Conclusion(Extended(NO_FRAMING, fields)) == Some(a) <==> Announce(fields, a)
  {
    var lengths, codings := ValuesOf(fields, Ascii("content-length")), ValuesOf(fields, Ascii("transfer-encoding"));
    assert [] + lengths == lengths && [] + codings == codings;
    if lengths != [] {
      ValuesAreTrimmed(fields, Ascii("content-length"), 0);
    }
    if codings != [] {
      ChunkedExactly(codings[0]);
    }
    hide ValuesOf, Ascii, SizeOf, Trim, IsChunkedCoding, JustChunked;
  }

  /** The framer accepts a header section, with a verdict on the length of the body, if and only if
      the section follows the rules and announces that. */
  lemma AcceptsExactly(lines: seq<Bytes>, a: Analysis)
    requires AreLines(lines)
    ensures Analyze(Section(lines)) == Some(a) <==> Accepts(lines, a)
  {
    CharactersExactly(lines);
    NothingAnnounced();
    hide Paired, NoOtherControls, ReadHead, Conclusion, Section, CleanLine, IsFieldLine, WithoutCrlf, Announce,
         Extended;
    if forall i :: 0 <= i < |lines| ==> CleanLine(lines[i]) {
      HeadExactly(lines);
      AnnouncedExactly(lines[1..], a);
    }
  }

  lemma NothingAnnounced()
    ensures Conclusion(NO_FRAMING) == Some(Analysis(false, None))
  {
  }

  // ----- frames

  lemma BlankAfterOne(line: Bytes)
    requires WithoutCrlf(line)
    ensures FindBlankLine(line + CRLF + CRLF) == Some(|line|)
  {
    var head := line + CRLF + CRLF;
    NoCrlfBefore(line, CRLF);
    assert BlankLineAt(head, |line|);
    hide FindBlankLine, WithoutCrlf;
    FindBlankLineIs(head, |line|);
  }

  lemma NoCrlfBefore(line: Bytes, rest: Bytes)
    requires WithoutCrlf(line)
    ensures var head := line + CRLF + rest;
      && head[|line|] == CR && head[|line| + 1] == LF && head[|line| + 2..] == rest
      && forall j :: 0 <= j < |line| ==> !CrlfAt(head, j)
  {
    var head := line + CRLF + rest;
    forall j | 0 <= j < |line|
      ensures !CrlfAt(head, j)
    {
      assert !CrlfAt(line, j);
    }
  }

  lemma NoCrlfFirst(line: Bytes, rest: Bytes)
    requires WithoutCrlf(line) && line != []
    ensures !CrlfAt(line + CRLF + rest, 0)
  {
    NoCrlfBefore(line, rest);
  }

  lemma {:induction false} BlankLineEnds(lines: seq<Bytes>)
    requires AreLines(lines)
    ensures |Section(lines)| >= 4 && FindBlankLine(Section(lines)) == Some(|Section(lines)| - 4)
    decreases |lines|
  {
    hide FindBlankLine, WithoutCrlf;
    if |lines| == 1 {
      assert Section(lines[1..]) == CRLF;
      BlankAfterOne(lines[0]);
    } else {
      BlankLineEnds(lines[1..]);
      NoCrlfFirst(lines[1], Section(lines[1..][1..]));
      NoCrlfBefore(lines[0], Section(lines[1..]));
      BlankBehind(Section(lines), |lines[0]|, Section(lines[1..]));
    }
  }

  lemma BlankBehind(head: Bytes, n: nat, rest: Bytes)
    requires n + 2 <= |head| && head[n + 2..] == rest && head[n] == CR && head[n + 1] == LF
    requires forall j :: 0 <= j < n ==> !CrlfAt(head, j)
    requires !CrlfAt(rest, 0) && |rest| >= 4 && FindBlankLine(rest) == Some(|rest| - 4)
    ensures FindBlankLine(head) == Some(|head| - 4)
  {
    hide FindBlankLine;
    forall j | 0 <= j < |head| - 4
      ensures !BlankLineAt(head, j)
    {
      if j == n {
        assert CrlfAt(head, n + 2) ==> CrlfAt(rest, 0);
      } else if j > n + 1 {
        assert BlankLineAt(head, j) ==> BlankLineAt(rest, j - n - 2);
      }
    }
    assert BlankLineAt(rest, |rest| - 4);
    FindBlankLineIs(head, |head| - 4);
  }

  lemma HeadFound(lines: seq<Bytes>, more: Bytes)
    requires AreLines(lines)
    ensures var head := Section(lines);
      && |head| >= 4 && FindBlankLine(head + more) == Some(|head| - 4)
      && (head + more)[..|head|] == head && (head + more)[|head|..] == more
  {
    hide Section, FindBlankLine;
    BlankLineEnds(lines);
    FindBlankLineStable(Section(lines), more);
  }

  /** Every buffer with an empty line in it starts with such a header section. */
  lemma {:induction false} LinesOfHead(head: Bytes) returns (lines: seq<Bytes>)
    requires |head| >= 4 && FindBlankLine(head) == Some(|head| - 4)
    ensures AreLines(lines) && Section(lines) == head
    decreases |head|
  {
    hide FindBlankLine, FindCrlf;
    assert CrlfAt(head, |head| - 4) && CrlfAt(head, |head| - 2);
    var n: nat := FindCrlf(head).value;
    var line, rest := head[..n], head[n + 2..];
    assert forall i :: CrlfAt(line, i) ==> CrlfAt(head, i);
    assert head == line + CRLF + rest;
    if CrlfAt(rest, 0) {
      assert BlankLineAt(head, n);
      assert rest == CRLF == Section([]);
      lines := [line];
      assert lines[1..] == [];
    } else {
      assert n != |head| - 4 && n + 2 <= |head| - 4 by { assert head[|head| - 3] == LF; }
      BlankFurtherOn(head, n, rest);
      var others := LinesOfHead(rest);
      lines := [line] + others;
      assert lines[1..] == others;
      FirstIsNotEmpty(others);
    }
  }

  lemma FirstIsNotEmpty(lines: seq<Bytes>)
    requires lines != [] && !CrlfAt(Section(lines), 0)
    ensures lines[0] != []
  {
  }

  lemma LinesOfBuffer(buffered: Bytes) returns (lines: seq<Bytes>, more: Bytes)
    requires exists i :: BlankLineAt(buffered, i)
    ensures AreLines(lines) && Section(lines) + more == buffered
  {
    var n: nat := FindBlankLine(buffered).value;
    hide FindBlankLine;
    var head := buffered[..n + 4];
    more := buffered[n + 4..];
    assert head + more == buffered;
    assert forall j :: BlankLineAt(head, j) ==> BlankLineAt(buffered, j);
    FindBlankLineIs(head, n);
    lines := LinesOfHead(head);
  }

  /** A chunked body is framed by what its chunks decode to: the head with the decoded body, while
      what is consumed is the encoding. */
  predicate RightChunkedFrame(frame: Frame, head: Bytes, request: Request, more: Bytes, limit: nat) {
    match Decoding(more)
    case DecodeIncomplete =>
      frame == if |head| + |more| > limit then Refused(413, 0, true)
               else HeaderComplete(request, true, None, |head|, true)
    case DecodeMalformed => frame == Refused(400, |head|, false)
    case DecodeComplete(body, used) =>
      frame == if |head| + used > limit then Refused(400, |head| + |more|, false)
               else Framed(request, true, None, |head| + used, head + body)
    case DecodeThrows => frame == FramerThrows
    case DecodeHangs => frame == FramerHangs
  }

  /** The verdict on an accepted header section that announces `a`, with `more` behind it: refused
      with 431 if it is over the limit, with 400 if it cannot be parsed, with 413 if its announced
      body would be over the limit; else it is complete when the announced octets are there. */
  predicate RightFrame(frame: Frame, head: Bytes, a: Analysis, more: Bytes, limit: nat) {
    if |head| > limit then frame == Refused(431, |head|, false)
    else if ParseRequest(head).Err? then frame == Refused(400, |head|, false)
    else
      var size := if a.contentLength.Some? then a.contentLength.value else 0;
      var request := ParseRequest(head).value;
      if a.chunked then RightChunkedFrame(frame, head, request, more, limit)
      else if |head| + size > limit then frame == Refused(413, 0, true)
      else if |more| < size then frame == HeaderComplete(request, false, Some(size), |head|, true)
      else frame == Framed(request, false, Some(size), |head| + size, head + more[..size])
  }

  /** The frame of a header section and what is behind it: refused with 400 if the section breaks
      the rules, and the verdict on what it announces if it does not. */
  lemma FrameExactly(lines: seq<Bytes>, more: Bytes, limit: nat)
    requires AreLines(lines)
    ensures (forall a :: !Accepts(lines, a)) ==>
              NextFrame(Section(lines) + more, limit) == Refused(400, |Section(lines)|, false)
    ensures forall a :: Accepts(lines, a) ==>
              RightFrame(NextFrame(Section(lines) + more, limit), Section(lines), a, more, limit)
  {
    hide Section, FindBlankLine, Analyze, Accepts, RightFrame, FrameFrom;
    var head := Section(lines);
    HeadFound(lines, more);
    if forall a :: !Accepts(lines, a) {
      BrokenIsRefused(lines);
      FrameOfBroken(head, more, limit);
    }
    forall a | Accepts(lines, a)
      ensures RightFrame(NextFrame(head + more, limit), head, a, more, limit)
    {
      AcceptsExactly(lines, a);
      FrameOfAccepted(head, a, more, limit);
    }
  }

  lemma BrokenIsRefused(lines: seq<Bytes>)
    requires AreLines(lines) && forall x :: !Accepts(lines, x)
    ensures Analyze(Section(lines)) == None
  {
    hide Accepts, Section;
    if Analyze(Section(lines)).Some? {
      AcceptsExactly(lines, Analyze(Section(lines)).value);
    }
  }

  lemma FrameOfBroken(head: Bytes, more: Bytes, limit: nat)
    requires |head| >= 4 && FindBlankLine(head + more) == Some(|head| - 4) && Analyze(head) == None
    ensures NextFrame(head + more, limit) == Refused(400, |head|, false)
  {
    hide FindBlankLine, Analyze, ParseRequest, ChunkedFrame, PlainFrame;
    assert (head + more)[..|head|] == head;
  }

  lemma FrameOfAccepted(head: Bytes, a: Analysis, more: Bytes, limit: nat)
    requires |head| >= 4 && FindBlankLine(head + more) == Some(|head| - 4)
    requires Analyze(head) == Some(a)
    ensures RightFrame(NextFrame(head + more, limit), head, a, more, limit)
  {
    hide FindBlankLine, Analyze, ParseRequest, Decoding;
    assert (head + more)[..|head|] == head && (head + more)[|head|..] == more;
    var size := if a.contentLength.Some? then a.contentLength.value else 0;
    if size <= |more| {
      assert (head + more)[..|head| + size] == head + more[..size];
    }
  }

  /** Without an empty line there is nothing to frame yet, and too much of it is refused. */
  lemma NothingToFrame(buffered: Bytes, limit: nat)
    requires forall i :: !BlankLineAt(buffered, i)
    ensures NextFrame(buffered, limit) == if |buffered| > limit then Refused(431, 0, false) else NeedMore
  {
  }

  // ----- what the parser makes of the lines

  lemma ParserLine(line: Bytes, rest: Bytes)
    requires CleanLine(line)
    ensures StripCr(FirstLine(line + CRLF + rest)) == line && AfterLine(line + CRLF + rest) == rest
    ensures line + CRLF + rest != []
  {
    hide FirstLine, AfterLine;
    assert line + CRLF + rest == (line + [CR]) + [LF] + rest;
    LineEndsAt(line + [CR], rest);
    assert (line + [CR])[..|line|] == line;
  }

  /** A header has its last value, or what it had before when there is none. */
  predicate HasLast(headers: map<Bytes, Bytes>, name: Bytes, values: seq<Bytes>, before: map<Bytes, Bytes>) {
    if values != [] then name in headers && headers[name] == values[|values| - 1]
    else (name in headers <==> name in before) && (name in headers ==> headers[name] == before[name])
  }

  /** Every name has the value of its last line; names without a line keep what they had. */
  ghost predicate LastOf(headers: map<Bytes, Bytes>, lines: seq<Bytes>, before: map<Bytes, Bytes>) {
    forall name :: HasLast(headers, name, ValuesOf(lines, name), before)
  }

  lemma {:induction false} HeadersExactly(lines: seq<Bytes>, body: Bytes, before: map<Bytes, Bytes>)
    requires forall i :: 0 <= i < |lines| ==> CleanLine(lines[i]) && IsFieldLine(lines[i])
    ensures var r := ParseHeaders(Section(lines) + body, before);
            r.Ok? && r.value.1 == body && LastOf(r.value.0, lines, before)
    decreases |lines|
  {
    hide CleanLine, FirstLine, AfterLine, StripCr, Trim, Find, LastOf, IsFieldLine, Lower;
    if lines == [] {
      BlankLineReadBack(body, before);
      NoLinesLast(before);
    } else {
      var rest := Section(lines[1..]);
      assert Section(lines) + body == lines[0] + CRLF + (rest + body);
      ParserLine(lines[0], rest + body);
      NameKept(lines[0]);
      var i: nat := Find(lines[0], COLON).value;
      var name, value := Lower(lines[0][..i]), Trim(lines[0][i + 1..]);
      assert forall k :: 0 <= k < |lines[1..]| ==> lines[1..][k] == lines[k + 1];
      HeadersExactly(lines[1..], body, before[name := value]);
      OneLineFirst(lines, before, ParseHeaders(Section(lines) + body, before).value.0);
    }
  }

  lemma NoLinesLast(before: map<Bytes, Bytes>)
    ensures LastOf(before, [], before)
  {
  }

  lemma NameKept(line: Bytes)
    requires IsFieldLine(line)
    ensures Find(line, COLON).Some? && line != []
    ensures var i: nat := Find(line, COLON).value; Trim(line[..i]) == line[..i] != []
  {
    NameEnds(line);
    var i: nat := Find(line, COLON).value;
    hide Find;
    assert forall j :: 0 <= j < i ==> line[..i][j] == line[j] && IsTokenChar(line[j]);
    TrimIdentity(line[..i]);
  }

  lemma ValuesByLine(lines: seq<Bytes>, name: Bytes)
    requires lines != [] && Find(lines[0], COLON).Some?
    ensures var i: nat := Find(lines[0], COLON).value;
            var rest := ValuesOf(lines[1..], name);
            ValuesOf(lines, name)
            == if Lower(lines[0][..i]) == name then [Trim(lines[0][i + 1..])] + rest else rest
  {
  }

  lemma OneValueFirst(headers: map<Bytes, Bytes>, name: Bytes, values: seq<Bytes>, before: map<Bytes, Bytes>,
      key: Bytes, value: Bytes)
    requires HasLast(headers, name, values, before[key := value])
    ensures HasLast(headers, name, if key == name then [value] + values else values, before)
  {
  }

  lemma OneLineFirst(lines: seq<Bytes>, before: map<Bytes, Bytes>, headers: map<Bytes, Bytes>)
    requires lines != [] && Find(lines[0], COLON).Some?
    requires var i: nat := Find(lines[0], COLON).value;
             LastOf(headers, lines[1..], before[Lower(lines[0][..i]) := Trim(lines[0][i + 1..])])
    ensures LastOf(headers, lines, before)
  {
    var i: nat := Find(lines[0], COLON).value;
    hide Trim, Find, Lower, ValuesOf, HasLast;
    var key, value := Lower(lines[0][..i]), Trim(lines[0][i + 1..]);
    forall name
      ensures HasLast(headers, name, ValuesOf(lines, name), before)
    {
      ValuesByLine(lines, name);
      OneValueFirst(headers, name, ValuesOf(lines[1..], name), before, key, value);
    }
  }

  /** The parser on a header section that follows the rules, whatever is behind it: three words of
      which the last is a version, every name with the value of its last line, and the rest is
      the body. */
  lemma ParseExactly(lines: seq<Bytes>, body: Bytes)
    requires lines != [] && forall i :: 0 <= i < |lines| ==> CleanLine(lines[i])
    requires forall i :: 1 <= i < |lines| ==> IsFieldLine(lines[i])
    ensures var r := ParseRequest(Section(lines) + body);
      var words := Fields(lines[0]);
      if |words| != 3 then r == Err(MalformedRequestLine)
      else if words[2] != Http11() && words[2] != Http10() then r == Err(UnsupportedVersion)
      else
        && r.Ok?
        && r.value == Request(words[0], words[1], words[2], r.value.headers, body)
        && LastOf(r.value.headers, lines[1..], map[])
  {
    hide CleanLine, FirstLine, AfterLine, StripCr, Fields, LastOf, IsFieldLine, ParseHeaders, Http11, Http10;
    var rest := Section(lines[1..]);
    assert Section(lines) + body == lines[0] + CRLF + (rest + body);
    ParserLine(lines[0], rest + body);
    assert forall k :: 0 <= k < |lines[1..]| ==> lines[1..][k] == lines[k + 1];
    HeadersExactly(lines[1..], body, map[]);
  }

  // ----- requests printed by the rules

  /** A field to print: a token, and a value without control characters but TAB. */
  predicate Printable(field: (Bytes, Bytes)) {
    ValidHeaderName(field.0) && CleanLine(field.1)
  }

  function FieldLine(field: (Bytes, Bytes)): Bytes {
    field.0 + [COLON, SPACE] + field.1
  }

  function FieldLines(fields: seq<(Bytes, Bytes)>): (lines: seq<Bytes>)
    ensures |lines| == |fields| && forall i :: 0 <= i < |fields| ==> lines[i] == FieldLine(fields[i])
  {
    seq(|fields|, i requires 0 <= i < |fields| => FieldLine(fields[i]))
  }

  function PrintedLinesOf(verb: Bytes, target: Bytes, fields: seq<(Bytes, Bytes)>): seq<Bytes> {
    [verb + [SPACE] + (target + [SPACE] + Http11())] + FieldLines(fields)
  }

  function Printed(verb: Bytes, target: Bytes, fields: seq<(Bytes, Bytes)>): Bytes {
    Section(PrintedLinesOf(verb, target, fields))
  }

  /** The last value for each lower-cased name. */
  function HeadersFrom(fields: seq<(Bytes, Bytes)>): map<Bytes, Bytes> {
    if fields == [] then map[]
    else
      var last := fields[|fields| - 1];
      HeadersFrom(fields[..|fields| - 1])[Lower(last.0) := Trim(last.1)]
  }

  lemma LineIsField(field: (Bytes, Bytes))
    requires Printable(field)
    ensures CleanLine(FieldLine(field)) && IsFieldLine(FieldLine(field))
    ensures Find(FieldLine(field), COLON) == Some(|field.0|)
    ensures FieldLine(field)[..|field.0|] == field.0 && Trim(FieldLine(field)[|field.0| + 1..]) == Trim(field.1)
    ensures FieldLine(field) != [] && WithoutCrlf(FieldLine(field))
  {
    var line, n := FieldLine(field), |field.0|;
    hide Find, Trim;
    assert forall i :: 0 <= i < n ==> line[i] == field.0[i] && IsTokenChar(line[i]);
    assert line[n] == COLON && line[n + 1] == SPACE;
    assert forall i :: n + 2 <= i < |line| ==> line[i] == field.1[i - n - 2];
    assert line[..n] == field.0 && line[n + 1..] == [SPACE] + field.1;
    assert COLON !in field.0 by { assert forall i :: 0 <= i < n ==> IsTokenChar(field.0[i]); }
    FindIs(line, COLON, n);
    TrimAfterSpace(field.1);
    assert IsFieldAt(line, n);
    CleanIsWithout(line);
  }

  lemma CleanIsWithout(line: Bytes)
    requires CleanLine(line)
    ensures WithoutCrlf(line)
  {
  }

  predicate NoFramingHeaders(fields: seq<(Bytes, Bytes)>) {
    forall i :: 0 <= i < |fields| ==>
        Lower(fields[i].0) != Ascii("content-length") && Lower(fields[i].0) != Ascii("transfer-encoding")
  }

  lemma {:induction false} PrintedValues(fields: seq<(Bytes, Bytes)>, lines: seq<Bytes>, name: Bytes)
    requires forall i :: 0 <= i < |fields| ==> Printable(fields[i])
    requires lines == FieldLines(fields)
    ensures lines == [] ==> ValuesOf(lines, name) == []
    ensures lines != [] ==>
              ValuesOf(lines, name)
              == (if Lower(fields[0].0) == name then [Trim(fields[0].1)] else []) + ValuesOf(lines[1..], name)
    ensures lines != [] ==> lines[1..] == FieldLines(fields[1..])
  {
    hide Find, Trim, Lower, Printable;
    if lines != [] {
      LineIsField(fields[0]);
    }
  }

  lemma {:induction false} LastValue(fields: seq<(Bytes, Bytes)>, name: Bytes)
    requires forall i :: 0 <= i < |fields| ==> Printable(fields[i])
    ensures HasLast(HeadersFrom(fields), name, ValuesOf(FieldLines(fields), name), map[])
    decreases |fields|
  {
    hide Trim, Lower, Printable, FieldLine;
    if fields == [] {
      PrintedValues(fields, FieldLines(fields), name);
    } else {
      var last, front := fields[|fields| - 1], fields[..|fields| - 1];
      LastValue(front, name);
      ValuesInTwo(fields, name);
    }
  }

  lemma {:induction false} ValuesInTwo(fields: seq<(Bytes, Bytes)>, name: Bytes)
    requires fields != [] && forall i :: 0 <= i < |fields| ==> Printable(fields[i])
    ensures var last, front := fields[|fields| - 1], fields[..|fields| - 1];
            ValuesOf(FieldLines(fields), name)
            == ValuesOf(FieldLines(front), name) + if Lower(last.0) == name then [Trim(last.1)] else []
    decreases |fields|
  {
    hide Trim, Lower, Printable, ValuesOf, FieldLines;
    var front := fields[..|fields| - 1];
    PrintedValues(fields, FieldLines(fields), name);
    PrintedValues(front, FieldLines(front), name);
    if |fields| == 1 {
      PrintedValues(fields[1..], FieldLines(fields[1..]), name);
    } else {
      ValuesInTwo(fields[1..], name);
      assert fields[1..][..|fields| - 2] == front[1..];
    }
  }

  lemma {:induction false} NoValues(fields: seq<(Bytes, Bytes)>, name: Bytes)
    requires forall i :: 0 <= i < |fields| ==> Printable(fields[i])
    requires forall i :: 0 <= i < |fields| ==> Lower(fields[i].0) != name
    ensures ValuesOf(FieldLines(fields), name) == []
    decreases |fields|
  {
    hide Trim, Lower, Printable, ValuesOf, FieldLines;
    PrintedValues(fields, FieldLines(fields), name);
    if fields != [] {
      NoValues(fields[1..], name);
    }
  }

  lemma SameLast(a: map<Bytes, Bytes>, b: map<Bytes, Bytes>, name: Bytes, values: seq<Bytes>)
    requires HasLast(a, name, values, map[]) && HasLast(b, name, values, map[])
    ensures (name in a <==> name in b) && (name in a ==> a[name] == b[name])
  {
  }

  lemma HeadersAre(fields: seq<(Bytes, Bytes)>, headers: map<Bytes, Bytes>)
    requires forall i :: 0 <= i < |fields| ==> Printable(fields[i])
    requires LastOf(headers, FieldLines(fields), map[])
    ensures headers == HeadersFrom(fields)
  {
    var expected, lines := HeadersFrom(fields), FieldLines(fields);
    hide HeadersFrom, ValuesOf, FieldLines, Printable, HasLast;
    forall name: Bytes
      ensures (name in headers <==> name in expected) && (name in headers ==> headers[name] == expected[name])
    {
      LastValue(fields, name);
      SameLast(headers, expected, name, ValuesOf(lines, name));
    }
  }

  lemma RequestLineIsRead(verb: Bytes, target: Bytes)
    requires IsWord(verb) && IsWord(target) && CleanLine(verb) && CleanLine(target)
    ensures var line := verb + [SPACE] + (target + [SPACE] + Http11());
            Fields(line) == [verb, target, Http11()] && CleanLine(line) && line != []
  {
    hide Fields;
    assert Http11() == [72, 84, 84, 80, 47, 49, 46, 49];
    OneWord(verb);
    OneWord(target);
    OneWord(Http11());
    WordsAround(target, Http11());
    WordsAround(verb, target + [SPACE] + Http11());
    assert [verb] + ([target] + [Http11()]) == [verb, target, Http11()];
  }

  /** The lines of a printed request. */
  lemma PrintedLines(verb: Bytes, target: Bytes, fields: seq<(Bytes, Bytes)>, lines: seq<Bytes>)
    requires IsWord(verb) && IsWord(target) && CleanLine(verb) && CleanLine(target)
    requires forall i :: 0 <= i < |fields| ==> Printable(fields[i])
    requires lines == [verb + [SPACE] + (target + [SPACE] + Http11())] + FieldLines(fields)
    ensures AreLines(lines) && lines[0] != [] && lines[1..] == FieldLines(fields)
    ensures forall i :: 0 <= i < |lines| ==> CleanLine(lines[i])
    ensures forall i :: 1 <= i < |lines| ==> IsFieldLine(lines[i])
    ensures Fields(lines[0]) == [verb, target, Http11()]
  {
    hide Fields, CleanLine, IsFieldLine, Http11, WithoutCrlf, FieldLine, Printable;
    RequestLineIsRead(verb, target);
    CleanIsWithout(lines[0]);
    forall i | 1 <= i < |lines|
      ensures CleanLine(lines[i]) && IsFieldLine(lines[i]) && WithoutCrlf(lines[i]) && lines[i] != []
    {
      LineIsField(fields[i - 1]);
    }
  }

  /** Such lines are accepted, without a body, and parsed. */
  lemma PrintedIsAccepted(verb: Bytes, target: Bytes, fields: seq<(Bytes, Bytes)>)
    requires IsWord(verb) && IsWord(target) && CleanLine(verb) && CleanLine(target)
    requires (forall i :: 0 <= i < |fields| ==> Printable(fields[i])) && NoFramingHeaders(fields)
    ensures var lines := PrintedLinesOf(verb, target, fields);
      && AreLines(lines) && Accepts(lines, Analysis(false, None))
      && ParseRequest(Section(lines)) == Ok(Request(verb, target, Http11(), HeadersFrom(fields), []))
  {
    hide Fields, CleanLine, IsFieldLine, Http11, WithoutCrlf, FieldLines, Printable, Section, ValuesOf, LastOf,
         ParseRequest, HeadersFrom, Lower, IsWord, JustChunked, Http10;
    var lines := PrintedLinesOf(verb, target, fields);
    PrintedLines(verb, target, fields, lines);
    NoValues(fields, Ascii("content-length"));
    NoValues(fields, Ascii("transfer-encoding"));
    ParseExactly(lines, []);
    assert Section(lines) + [] == Section(lines);
    HeadersAre(fields, ParseRequest(Section(lines)).value.headers);
  }

  /** A request line of two words and the version, and any fields with token names and clean values,
      none of which is a framing header: within the limit it is a complete request without a body,
      whatever is behind it, and every header has the value that was printed last. */
  lemma PlainRequestIsFramed(verb: Bytes, target: Bytes, fields: seq<(Bytes, Bytes)>, more: Bytes, limit: nat)
    requires IsWord(verb) && IsWord(target) && CleanLine(verb) && CleanLine(target)
    requires forall i :: 0 <= i < |fields| ==> Printable(fields[i])
    requires NoFramingHeaders(fields) && |Printed(verb, target, fields)| <= limit
    ensures var text := Printed(verb, target, fields);
      NextFrame(text + more, limit)
      == Framed(Request(verb, target, Http11(), HeadersFrom(fields), []), false, Some(0), |text|, text)
  {
    hide CleanLine, Http11, Printable, Section, ParseRequest, NextFrame, HeadersFrom, IsWord, PrintedLinesOf, AreLines,
         Accepts, NoFramingHeaders;
    var lines := PrintedLinesOf(verb, target, fields);
    PrintedIsAccepted(verb, target, fields);
    FrameExactly(lines, more, limit);
    var head := Section(lines);
    assert RightFrame(NextFrame(head + more, limit), head, Analysis(false, None), more, limit);
    assert head + more[..0] == head;
  }
}
