/** The octets that are a chunked body, as a grammar: chunks with their size lines and extensions, the
    last chunk, and a trailer section (section 7.1 of RFC 9112). */
module ChunkedGrammar {
  import opened Wrappers
  import opened Octets
  import opened ChunkedBody
  import opened ChunkedDecoding

  // ----- numbers as text

  function Zeros(k: nat): (s: Bytes)
    ensures |s| == k && forall i :: 0 <= i < k ==> s[i] == 48
  {
    seq(k, i => 48)
  }

  lemma DigitsAreLower(n: nat, radix: Radix)
    ensures Lower(Digits(n, radix)) == Digits(n, radix)
  {
    if n >= Base(radix) {
      DigitsAreLower(n / Base(radix), radix);
    }
  }

  lemma LowerDigit(b: Byte, radix: Radix)
    ensures DigitOf(ToLower(b), radix) == DigitOf(b, radix)
    ensures DigitOf(b, radix).Some? ==>
              DigitOf(b, radix).value < Base(radix) && DigitChar(DigitOf(b, radix).value) == ToLower(b)
  {
  }

  lemma {:induction false} DigitsOfValue(s: Bytes, radix: Radix) returns (k: nat)
    requires s != [] && AllDigits(s, radix)
    ensures Lower(s) == Zeros(k) + Digits(PositionalValue(s, radix), radix)
        || (PositionalValue(s, radix) == 0 && Lower(s) == Zeros(k) && k > 0)
    decreases |s|
  {
    var front, last := s[..|s| - 1], s[|s| - 1];
    LowerDigit(last, radix);
    LowerLast(s);
    hide Lower, DigitOf, Digits;
    if front == [] {
      assert PositionalValue(front, radix) == 0 && Lower(front) == [] == Zeros(0);
      k := OneDigit(front, 0, DigitOf(last, radix).value, radix);
    } else {
      k := DigitsOfValue(front, radix);
      var v, d := PositionalValue(front, radix), DigitOf(last, radix).value;
      if v == 0 {
        k := OneDigit(front, k, d, radix);
      } else {
        ShiftedDigits(v, d, radix);
      }
    }
  }

  lemma LowerLast(s: Bytes)
    requires s != []
    ensures Lower(s) == Lower(s[..|s| - 1]) + [ToLower(s[|s| - 1])]
  {
  }

  lemma OneDigit(front: Bytes, k: nat, d: nat, radix: Radix) returns (zeros: nat)
    requires d < Base(radix) && (Lower(front) == Zeros(k) + Digits(0, radix) || Lower(front) == Zeros(k))
    ensures Lower(front) == Zeros(zeros) && Digits(d, radix) == [DigitChar(d)]
  {
    assert Digits(0, radix) == [48];
    zeros := if Lower(front) == Zeros(k) then k else k + 1;
  }

  lemma ShiftedDigits(v: nat, d: nat, radix: Radix)
    requires v > 0 && d < Base(radix)
    ensures Digits(Shifted(v, d, radix), radix) == Digits(v, radix) + [DigitChar(d)]
  {
    var n := Shifted(v, d, radix);
    assert n / Base(radix) == v && n % Base(radix) == d;
  }

  lemma {:induction false} ZerosInFront(k: nat, s: Bytes, radix: Radix)
    requires AllDigits(s, radix)
    ensures AllDigits(Zeros(k) + s, radix) && PositionalValue(Zeros(k) + s, radix) == PositionalValue(s, radix)
    decreases |s| + k
  {
    var t := Zeros(k) + s;
    if s != [] {
      ZerosInFront(k, s[..|s| - 1], radix);
      assert t[..|t| - 1] == Zeros(k) + s[..|s| - 1];
    } else if k > 0 {
      ZerosInFront(k - 1, [], radix);
      assert t[..k - 1] == Zeros(k - 1) + [];
    }
  }

  lemma {:induction false} LowerIsSameNumber(s: Bytes, radix: Radix)
    ensures AllDigits(Lower(s), radix) <==> AllDigits(s, radix)
    ensures AllDigits(s, radix) ==> PositionalValue(Lower(s), radix) == PositionalValue(s, radix)
    decreases |s|
  {
    forall i | 0 <= i < |s|
      ensures DigitOf(Lower(s)[i], radix) == DigitOf(s[i], radix)
    {
      LowerDigit(s[i], radix);
    }
    if s != [] && AllDigits(s, radix) {
      LowerIsSameNumber(s[..|s| - 1], radix);
      assert Lower(s)[..|s| - 1] == Lower(s[..|s| - 1]);
    }
  }

  /** The text is the number, behind any zeros, in capitals or not. */
  ghost predicate Spells(s: Bytes, n: nat, radix: Radix) {
    exists k: nat :: Lower(s) == Zeros(k) + Digits(n, radix)
  }

  /** A size is read from exactly the texts that spell it, and only sizes of 64 bits are read. */
  lemma SizeExactly(s: Bytes, n: nat, radix: Radix)
    ensures SizeOf(s, radix) == Some(n) <==> n <= SIZE_MAX && Spells(s, n, radix)
  {
    LowerIsSameNumber(s, radix);
    if SizeOf(s, radix) == Some(n) {
      var k := DigitsOfValue(s, radix);
      if Lower(s) != Zeros(k) + Digits(n, radix) {
        assert Digits(0, radix) == [48];
        assert Lower(s) == Zeros(k - 1) + Digits(n, radix);
      }
    }
    if Spells(s, n, radix) {
      var k: nat :| Lower(s) == Zeros(k) + Digits(n, radix);
      DigitsValue(n, radix);
      ZerosInFront(k, Digits(n, radix), radix);
      assert |s| == |Lower(s)| > 0;
    }
  }

  // ----- size lines

  predicate AllSpaces(s: Bytes) {
    forall i :: 0 <= i < |s| ==> IsSpace(s[i])
  }

  /** White space, a number in hexadecimal, white space, and an extension behind a semicolon. */
  ghost predicate SizeLineAt(line: Bytes, n: nat, a: nat, b: nat, c: nat) {
    && a < b <= c <= |line|
    && AllSpaces(line[..a]) && Spells(line[a..b], n, Hexadecimal) && AllSpaces(line[b..c])
    && (c < |line| ==> line[c] == SEMICOLON)
  }

  ghost predicate IsSizeLine(line: Bytes, n: nat) {
    n <= SIZE_MAX && exists a, b, c :: SizeLineAt(line, n, a, b, c)
  }

  lemma DigitIsPlain(b: Byte)
    requires DigitOf(b, Hexadecimal).Some?
    ensures !IsSpace(b) && b != SEMICOLON
  {
  }

  lemma NoSemicolonBefore(line: Bytes, a: nat, b: nat, c: nat)
    requires a <= b <= c <= |line| && AllSpaces(line[..a]) && AllDigits(line[a..b], Hexadecimal)
        && AllSpaces(line[b..c])
    ensures SEMICOLON !in line[..c]
  {
    forall i | 0 <= i < c
      ensures line[..c][i] != SEMICOLON
    {
      assert i < a ==> line[i] == line[..a][i];
      assert a <= i < b ==> line[i] == line[a..b][i - a];
      assert i >= b ==> line[i] == line[b..c][i - b];
    }
  }

  lemma NumberTrimmed(s: Bytes, a: nat, b: nat)
    requires a < b <= |s| && AllSpaces(s[..a]) && AllDigits(s[a..b], Hexadecimal) && AllSpaces(s[b..])
    ensures Trim(s) == s[a..b]
  {
    assert s[a] == s[a..b][0] && s[b - 1] == s[a..b][b - a - 1];
    assert forall i :: 0 <= i < a ==> s[i] == s[..a][i];
    assert forall i :: b <= i < |s| ==> s[i] == s[b..][i - b];
    DigitIsPlain(s[a]);
    DigitIsPlain(s[b - 1]);
    TrimIs(s, a, b);
  }

  lemma SizeLineIsRead(line: Bytes, n: nat, a: nat, b: nat, c: nat)
    requires n <= SIZE_MAX && SizeLineAt(line, n, a, b, c)
    ensures SizeOn(line) == Some(n)
  {
    SizeExactly(line[a..b], n, Hexadecimal);
    NoSemicolonBefore(line, a, b, c);
    hide Spells;
    var front := line[..c];
    if c < |line| {
      FindIs(line, SEMICOLON, c);
    } else {
      assert front == line;
    }
    assert BeforeExtension(line) == front;
    assert front[..a] == line[..a] && front[a..b] == line[a..b] && front[b..] == line[b..c];
    NumberTrimmed(front, a, b);
  }

  lemma ReadIsSizeLine(line: Bytes, n: nat) returns (a: nat, b: nat, c: nat)
    requires SizeOn(line) == Some(n)
    ensures n <= SIZE_MAX && SizeLineAt(line, n, a, b, c)
  {
    var front := BeforeExtension(line);
    c := |front|;
    assert front == line[..c];
    a, b := TrimmedAt(front);
    hide Trim;
    assert front[a..b] == line[a..b] && front[..a] == line[..a] && front[b..] == line[b..c];
    SizeExactly(line[a..b], n, Hexadecimal);
    hide Spells;
    assert forall i :: 0 <= i < a ==> line[..a][i] == front[i];
    assert forall i :: 0 <= i < c - b ==> line[b..c][i] == front[b + i];
  }

  /** A size is read from exactly the size lines. */
  lemma SizeOnExactly(line: Bytes, n: nat)
    ensures SizeOn(line) == Some(n) <==> IsSizeLine(line, n)
  {
    hide SizeOn, SizeLineAt;
    if IsSizeLine(line, n) {
      var a: nat, b: nat, c: nat :| SizeLineAt(line, n, a, b, c);
      SizeLineIsRead(line, n, a, b, c);
    }
    if SizeOn(line) == Some(n) {
      var a, b, c := ReadIsSizeLine(line, n);
    }
  }

  // ----- the grammar

  /** A size line, and its octets. */
  datatype Piece = Piece(line: Bytes, data: Bytes)

  /** A line as it can be on the wire; a strict reader also wants it short and without a bare LF. */
  ghost predicate LineRule(line: Bytes, strict: bool) {
    WithoutCrlf(line) && (strict ==> LF !in line && |line| <= 8191)
  }

  ghost predicate PieceRule(p: Piece, strict: bool) {
    LineRule(p.line, strict) && p.data != [] && IsSizeLine(p.line, |p.data|)
  }

  ghost predicate PieceRules(pieces: seq<Piece>, strict: bool) {
    forall i :: 0 <= i < |pieces| ==> PieceRule(pieces[i], strict)
  }

  function PiecesWire(pieces: seq<Piece>): Bytes {
    if pieces == [] then []
    else pieces[0].line + CRLF + (pieces[0].data + CRLF + PiecesWire(pieces[1..]))
  }

  function DataOf(pieces: seq<Piece>): Bytes {
    if pieces == [] then [] else pieces[0].data + DataOf(pieces[1..])
  }

  ghost predicate TrailerRules(lines: seq<Bytes>, strict: bool) {
    forall i :: 0 <= i < |lines| ==> lines[i] != [] && LineRule(lines[i], strict)
  }

  /** Chunks, a size line with zero, and a trailer section; and what is behind. */
  ghost predicate Written(s: Bytes, pieces: seq<Piece>, last: Bytes, trailers: seq<Bytes>, rest: Bytes, strict: bool) {
    && PieceRules(pieces, strict) && LineRule(last, strict) && IsSizeLine(last, 0) && TrailerRules(trailers, strict)
    && s == PiecesWire(pieces) + (last + CRLF + (Section(trailers) + rest))
  }

  /** A chunked body that comes to `body`, with `rest` behind it. */
  ghost predicate IsBody(s: Bytes, body: Bytes, rest: Bytes, strict: bool) {
    exists pieces, last, trailers :: Written(s, pieces, last, trailers, rest, strict) && body == DataOf(pieces)
  }

  // ----- one line

  lemma LineEndExactly(line: Bytes, more: Bytes, strict: bool)
    requires WithoutCrlf(line)
    ensures LineEnd(line + CRLF + more, strict) == if LineRule(line, strict) then LineAt(|line|) else BadLine
  {
    LineFound(line, more);
    hide FindCrlf, WithoutCrlf;
  }

  lemma LineThere(s: Bytes, strict: bool) returns (line: Bytes, more: Bytes)
    requires LineEnd(s, strict) != NoLine
    ensures WithoutCrlf(line) && s == line + CRLF + more
    ensures LineEnd(s, strict) == if LineRule(line, strict) then LineAt(|line|) else BadLine
  {
    var end: nat := FindCrlf(s).value;
    line, more := s[..end], s[end + 2..];
    assert s == line + CRLF + more;
    forall i
      ensures !CrlfAt(line, i)
    {
      assert CrlfAt(line, i) ==> CrlfAt(s, i);
    }
    LineEndExactly(line, more, strict);
  }

  // ----- the front

  lemma FrontOfPiece(p: Piece, after: Bytes, strict: bool)
    requires PieceRule(p, strict)
    ensures FrontOf(p.line + CRLF + (p.data + CRLF + after), strict) == Chunk(p.data, after)
  {
    hide SizeOn, IsSizeLine, LineEnd, LineRule, WithoutCrlf;
    var more := p.data + CRLF + after;
    LineEndExactly(p.line, more, strict) by { assert WithoutCrlf(p.line) by { RuleIsWithout(p.line, strict); } }
    LineInFront(p.line, more);
    SizeOnExactly(p.line, |p.data|);
    DataInFront(p.data, CRLF, after);
  }

  lemma RuleIsWithout(line: Bytes, strict: bool)
    requires LineRule(line, strict)
    ensures WithoutCrlf(line)
  {
  }

  lemma LineInFront(line: Bytes, more: Bytes)
    ensures (line + CRLF + more)[..|line|] == line && (line + CRLF + more)[|line| + 2..] == more
  {
  }

  lemma DataInFront(data: Bytes, two: Bytes, after: Bytes)
    requires |two| == 2
    ensures var s := data + two + after;
            s[..|data|] == data && s[|data|..|data| + 2] == two && s[|data| + 2..] == after
  {
  }

  lemma FrontOfLast(line: Bytes, after: Bytes, strict: bool)
    requires LineRule(line, strict) && IsSizeLine(line, 0)
    ensures FrontOf(line + CRLF + after, strict) == Last(after)
  {
    hide SizeOn, IsSizeLine, LineEnd, LineRule, WithoutCrlf;
    LineEndExactly(line, after, strict) by { assert WithoutCrlf(line) by { RuleIsWithout(line, strict); } }
    LineInFront(line, after);
    SizeOnExactly(line, 0);
  }

  lemma FrontIsPiece(s: Bytes, strict: bool) returns (line: Bytes)
    requires FrontOf(s, strict).Chunk? || FrontOf(s, strict).Last?
    ensures LineRule(line, strict)
    ensures FrontOf(s, strict).Last? ==> IsSizeLine(line, 0) && s == line + CRLF + FrontOf(s, strict).after
    ensures FrontOf(s, strict).Chunk? ==>
              var front := FrontOf(s, strict);
              && PieceRule(Piece(line, front.data), strict)
              && s == line + CRLF + (front.data + CRLF + front.after)
  {
    hide SizeOn, IsSizeLine, LineEnd, LineRule, WithoutCrlf;
    var more: Bytes;
    line, more := LineThere(s, strict);
    LineInFront(line, more);
    var n := SizeOn(line).value;
    SizeOnExactly(line, n);
    if n > 0 {
      DataJoined(more, n);
    }
  }

  lemma DataJoined(more: Bytes, n: nat)
    requires |more| >= n + 2 && more[n..n + 2] == CRLF
    ensures more == more[..n] + CRLF + more[n + 2..]
  {
  }

  // ----- the whole body

  lemma {:induction false} TrailersRead(lines: seq<Bytes>, rest: Bytes, strict: bool)
    requires TrailerRules(lines, strict)
    ensures Trailers(Section(lines) + rest, strict) == Complete([], rest)
    decreases |lines|
  {
    hide LineEnd, LineRule, WithoutCrlf;
    if lines == [] {
      NoTrailer(strict);
      assert [] + CRLF + rest == CRLF + rest && (CRLF + rest)[2..] == rest;
      LineEndExactly([], rest, strict);
    } else {
      var more := Section(lines[1..]) + rest;
      assert Section(lines) + rest == lines[0] + CRLF + more;
      RuleIsWithout(lines[0], strict);
      LineEndExactly(lines[0], more, strict);
      LineInFront(lines[0], more);
      TrailersRead(lines[1..], rest, strict);
    }
  }

  lemma NoTrailer(strict: bool)
    ensures LineRule([], strict) && WithoutCrlf([])
  {
  }

  lemma LineOfSection(line: Bytes, others: Bytes, rest: Bytes)
    ensures line + CRLF + (others + rest) == line + CRLF + others + rest
  {
  }

  lemma {:induction false} TrailersWritten(s: Bytes, strict: bool) returns (lines: seq<Bytes>)
    requires Trailers(s, strict).Complete?
    ensures TrailerRules(lines, strict) && s == Section(lines) + Trailers(s, strict).rest
    ensures Trailers(s, strict).body == []
    decreases |s|
  {
    hide LineEnd, LineRule, WithoutCrlf;
    var line, more := LineThere(s, strict);
    LineInFront(line, more);
    if line == [] {
      lines := [];
      assert s == CRLF + more;
    } else {
      var others := TrailersWritten(more, strict);
      lines := [line] + others;
      assert lines[1..] == others;
      LineOfSection(line, Section(others), Trailers(s, strict).rest);
    }
  }

  lemma {:induction false} WrittenIsRead(s: Bytes, pieces: seq<Piece>, last: Bytes, trailers: seq<Bytes>, rest: Bytes,
      strict: bool)
    requires Written(s, pieces, last, trailers, rest, strict)
    ensures Chunks(s, strict) == Complete(DataOf(pieces), rest)
    decreases |pieces|
  {
    hide FrontOf, LineRule, IsSizeLine, Trailers, Section, PieceRule;
    var tail := last + CRLF + (Section(trailers) + rest);
    if pieces == [] {
      assert s == tail;
      FrontOfLast(last, Section(trailers) + rest, strict);
      TrailersRead(trailers, rest, strict);
    } else {
      var after := PiecesWire(pieces[1..]) + tail;
      assert s == pieces[0].line + CRLF + (pieces[0].data + CRLF + after);
      FrontOfPiece(pieces[0], after, strict);
      assert forall i :: 0 <= i < |pieces[1..]| ==> pieces[1..][i] == pieces[i + 1];
      WrittenIsRead(after, pieces[1..], last, trailers, rest, strict);
    }
  }

  lemma PieceInFront(line: Bytes, data: Bytes, others: Bytes, tail: Bytes)
    ensures line + CRLF + (data + CRLF + (others + tail)) == line + CRLF + (data + CRLF + others) + tail
  {
  }

  lemma {:induction false} ReadIsWritten(s: Bytes, strict: bool)
      returns (pieces: seq<Piece>, last: Bytes, trailers: seq<Bytes>)
    requires Chunks(s, strict).Complete?
    ensures Written(s, pieces, last, trailers, Chunks(s, strict).rest, strict)
    ensures DataOf(pieces) == Chunks(s, strict).body
    decreases |s|
  {
    hide FrontOf, LineRule, IsSizeLine, Trailers, Section, PieceRule;
    var front := FrontOf(s, strict);
    var line := FrontIsPiece(s, strict);
    if front.Last? {
      pieces, last := [], line;
      trailers := TrailersWritten(front.after, strict);
      assert s == [] + s;
    } else {
      var others;
      others, last, trailers := ReadIsWritten(front.after, strict);
      pieces := [Piece(line, front.data)] + others;
      assert pieces[1..] == others;
      var tail := last + CRLF + (Section(trailers) + Chunks(s, strict).rest);
      PieceInFront(line, front.data, PiecesWire(others), tail);
      assert s == PiecesWire(pieces) + tail;
      assert PieceRules(pieces, strict);
    }
  }

  /** Octets are read as a complete body, with these contents and this rest, if and only if they are
      written by the grammar. */
  lemma CompleteExactly(s: Bytes, body: Bytes, rest: Bytes, strict: bool)
    ensures Chunks(s, strict) == Complete(body, rest) <==> IsBody(s, body, rest, strict)
  {
    hide Chunks, Written, DataOf;
    if IsBody(s, body, rest, strict) {
      var pieces, last, trailers :| Written(s, pieces, last, trailers, rest, strict) && body == DataOf(pieces);
      WrittenIsRead(s, pieces, last, trailers, rest, strict);
    }
    if Chunks(s, strict) == Complete(body, rest) {
      var pieces, last, trailers := ReadIsWritten(s, strict);
    }
  }

  // ----- octets that no continuation mends

  /** A line that is no size line, or a chunk without CR LF behind its octets. */
  ghost predicate BrokenLine(s: Bytes, line: Bytes, more: Bytes) {
    WithoutCrlf(line) && s == line + CRLF + more && forall n :: !IsSizeLine(line, n)
  }

  ghost predicate BrokenChunk(s: Bytes, p: Piece, two: Bytes, more: Bytes) {
    PieceRule(p, false) && |two| == 2 && two != CRLF && s == p.line + CRLF + (p.data + two + more)
  }

  ghost predicate BrokenHere(s: Bytes) {
    (exists line, more :: BrokenLine(s, line, more)) || exists p, two, more :: BrokenChunk(s, p, two, more)
  }

  ghost predicate BrokenAfter(s: Bytes, pieces: seq<Piece>, tail: Bytes) {
    PieceRules(pieces, false) && s == PiecesWire(pieces) + tail && BrokenHere(tail)
  }

  ghost predicate IsBroken(s: Bytes) {
    exists pieces, tail :: BrokenAfter(s, pieces, tail)
  }

  lemma BrokenIsBad(s: Bytes)
    requires BrokenHere(s)
    ensures FrontOf(s, false).Bad?
  {
    hide SizeOn, IsSizeLine, LineEnd, WithoutCrlf;
    if line, more :| BrokenLine(s, line, more) {
      LineEndExactly(line, more, false);
      LineInFront(line, more);
      if SizeOn(line).Some? {
        SizeOnExactly(line, SizeOn(line).value);
      }
    } else {
      var p, two, more :| BrokenChunk(s, p, two, more);
      LineEndExactly(p.line, p.data + two + more, false);
      LineInFront(p.line, p.data + two + more);
      SizeOnExactly(p.line, |p.data|);
      DataInFront(p.data, two, more);
    }
  }

  lemma BadIsBroken(s: Bytes)
    requires FrontOf(s, false).Bad?
    ensures BrokenHere(s)
  {
    hide SizeOn, IsSizeLine, LineEnd, WithoutCrlf;
    var line, more := LineThere(s, false);
    LineInFront(line, more);
    if SizeOn(line).Some? {
      var n := SizeOn(line).value;
      SizeOnExactly(line, n);
      assert more == more[..n] + more[n..n + 2] + more[n + 2..];
      assert BrokenChunk(s, Piece(line, more[..n]), more[n..n + 2], more[n + 2..]);
    } else {
      forall n
        ensures !IsSizeLine(line, n)
      {
        SizeOnExactly(line, n);
      }
      assert BrokenLine(s, line, more);
    }
  }

  lemma {:induction false} BrokenIsMalformed(s: Bytes, pieces: seq<Piece>, tail: Bytes)
    requires BrokenAfter(s, pieces, tail)
    ensures Chunks(s, false).Malformed?
    decreases |pieces|
  {
    hide FrontOf, Trailers, PieceRule, BrokenHere;
    if pieces == [] {
      assert s == tail;
      BrokenIsBad(s);
    } else {
      var after := PiecesWire(pieces[1..]) + tail;
      PieceInFront(pieces[0].line, pieces[0].data, PiecesWire(pieces[1..]), tail);
      FrontOfPiece(pieces[0], after, false);
      assert forall i :: 0 <= i < |pieces[1..]| ==> pieces[1..][i] == pieces[i + 1];
      BrokenIsMalformed(after, pieces[1..], tail);
    }
  }

  lemma {:induction false} MalformedIsBroken(s: Bytes) returns (pieces: seq<Piece>, tail: Bytes)
    requires Chunks(s, false).Malformed?
    ensures BrokenAfter(s, pieces, tail)
    decreases |s|
  {
    hide FrontOf, Trailers, PieceRule, BrokenHere, LineRule, IsSizeLine;
    var front := FrontOf(s, false);
    if front.Bad? {
      BadIsBroken(s);
      pieces, tail := [], s;
      assert [] + s == s;
    } else if front.Last? {
      TrailersNeverMalformed(front.after);
    } else {
      var line := FrontIsPiece(s, false);
      var others;
      others, tail := MalformedIsBroken(front.after);
      pieces := [Piece(line, front.data)] + others;
      assert pieces[1..] == others;
      PieceInFront(line, front.data, PiecesWire(others), tail);
    }
  }

  /** Octets are malformed if and only if, behind some chunks, there is a line that is no size line,
      or a chunk without its line end. */
  lemma MalformedExactly(s: Bytes)
    ensures Chunks(s, false).Malformed? <==> IsBroken(s)
  {
    hide Chunks, BrokenAfter;
    if IsBroken(s) {
      var pieces, tail :| BrokenAfter(s, pieces, tail);
      BrokenIsMalformed(s, pieces, tail);
    }
    if Chunks(s, false).Malformed? {
      var pieces, tail := MalformedIsBroken(s);
    }
  }

  // ----- the decoders

  /** The framer's decoder takes every body that the grammar writes, for what it is, and refuses the
      octets that are broken; and where no sum wraps, nothing else. */
  lemma DecodingByGrammar(encoded: Bytes, body: Bytes, rest: Bytes)
    requires |encoded| <= MAX_STRING && |rest| <= |encoded|
    ensures IsBody(encoded, body, rest, false) ==> Decoding(encoded) == DecodeComplete(body, |encoded| - |rest|)
    ensures IsBroken(encoded) ==> Decoding(encoded).DecodeMalformed?
    ensures !Wraps(encoded) && Decoding(encoded).DecodeMalformed? ==> IsBroken(encoded)
    ensures (!Wraps(encoded) && Decoding(encoded) == DecodeComplete(body, |encoded| - |rest|)
             && encoded[|encoded| - |rest|..] == rest) ==> IsBody(encoded, body, rest, false)
  {
    hide Chunks, Decoding, WrapsFrom, IsBody, IsBroken;
    CompleteExactly(encoded, body, rest, false);
    MalformedExactly(encoded);
    DecodesExactly(encoded);
    if !Chunks(encoded, false).Incomplete? {
      Unwrapped(encoded);
    }
    if Chunks(encoded, false).Complete? {
      ChunksLeaveSuffix(encoded, false);
      SuffixIs(encoded, Chunks(encoded, false).rest);
    }
  }

  lemma SuffixIs(s: Bytes, rest: Bytes)
    requires |rest| <= |s| && s[|s| - |rest|..] == rest
    ensures forall other: Bytes :: |other| == |rest| && s[|s| - |other|..] == other ==> other == rest
  {
  }

  /** Chunks and a size line with zero: all that the decoder for upstream responses wants to see. */
  ghost predicate UpToLast(s: Bytes, pieces: seq<Piece>, last: Bytes, more: Bytes) {
    && PieceRules(pieces, false) && LineRule(last, false) && IsSizeLine(last, 0)
    && s == PiecesWire(pieces) + (last + CRLF + more)
  }

  lemma {:induction false} WalkToLast(encoded: Bytes, cursor: nat, turns: nat, pieces: seq<Piece>, last: Bytes,
      more: Bytes)
    requires cursor <= |encoded| <= MAX_STRING && |encoded| - cursor < turns
    requires UpToLast(encoded[cursor..], pieces, last, more)
    ensures var walked := Walk(encoded, cursor, turns); walked.halt.AtLast? && walked.body == DataOf(pieces)
    ensures !WrapsFrom(encoded, cursor)
    decreases |pieces|
  {
    hide FrontOf, LineRule, IsSizeLine, PieceRule, HopFrom, WrapsFrom;
    HopFollows(encoded, cursor);
    if pieces == [] {
      assert encoded[cursor..] == last + CRLF + more;
      FrontOfLast(last, more, false);
    } else {
      var tail := last + CRLF + more;
      PieceInFront(pieces[0].line, pieces[0].data, PiecesWire(pieces[1..]), tail);
      FrontOfPiece(pieces[0], PiecesWire(pieces[1..]) + tail, false);
      assert forall i :: 0 <= i < |pieces[1..]| ==> pieces[1..][i] == pieces[i + 1];
      WalkToLast(encoded, HopFrom(encoded, cursor).cursor, turns - 1, pieces[1..], last, more);
    }
  }

  lemma {:induction false} WalkedToLast(encoded: Bytes, cursor: nat, turns: nat)
      returns (pieces: seq<Piece>, last: Bytes, more: Bytes)
    requires cursor <= |encoded| <= MAX_STRING && !WrapsFrom(encoded, cursor)
    requires Walk(encoded, cursor, turns).halt.AtLast?
    ensures UpToLast(encoded[cursor..], pieces, last, more) && DataOf(pieces) == Walk(encoded, cursor, turns).body
    decreases turns
  {
    hide FrontOf, LineRule, IsSizeLine, PieceRule, HopFrom, WrapsFrom;
    HopFollows(encoded, cursor);
    var line := FrontIsPiece(encoded[cursor..], false);
    var front := FrontOf(encoded[cursor..], false);
    if front.Last? {
      pieces, last, more := [], line, front.after;
      assert encoded[cursor..] == [] + (line + CRLF + more);
    } else {
      var others;
      others, last, more := WalkedToLast(encoded, HopFrom(encoded, cursor).cursor, turns - 1);
      pieces := [Piece(line, front.data)] + others;
      assert pieces[1..] == others;
      PieceInFront(line, front.data, PiecesWire(others), last + CRLF + more);
    }
  }

  /** The decoder for upstream responses gives the octets of the chunks as soon as the last chunk is
      there; and, where no sum wraps, only then. */
  lemma UpstreamByGrammar(encoded: Bytes, body: Bytes)
    requires |encoded| <= MAX_STRING
    ensures (exists pieces, last, more :: UpToLast(encoded, pieces, last, more) && body == DataOf(pieces))
        ==> UpstreamDecoding(encoded) == UpstreamBody(body)
    ensures !Wraps(encoded) && UpstreamDecoding(encoded) == UpstreamBody(body)
        ==> exists pieces, last, more :: UpToLast(encoded, pieces, last, more) && body == DataOf(pieces)
  {
    hide Walk, WrapsFrom, UpToLast, DataOf;
    assert encoded[0..] == encoded;
    if pieces, last, more :| UpToLast(encoded, pieces, last, more) && body == DataOf(pieces) {
      WalkToLast(encoded, 0, |encoded| + 1, pieces, last, more);
    }
    if !Wraps(encoded) && UpstreamDecoding(encoded) == UpstreamBody(body) {
      var pieces, last, more := WalkedToLast(encoded, 0, |encoded| + 1);
    }
  }

  // ----- what the encoder writes

  /** The chunks that are not empty, each behind its length. */
  function PiecesOf(chunks: seq<Bytes>): seq<Piece> {
    if chunks == [] then []
    else if chunks[0] == [] then PiecesOf(chunks[1..])
    else [Piece(Digits(|chunks[0]|, Hexadecimal), chunks[0])] + PiecesOf(chunks[1..])
  }

  lemma {:induction false} ChunksAreWritten(chunks: seq<Bytes>)
    ensures ChunksWire(chunks) == PiecesWire(PiecesOf(chunks))
    decreases |chunks|
  {
    hide Digits;
    if chunks != [] {
      ChunksAreWritten(chunks[1..]);
      if chunks[0] == [] {
        assert [] + ChunksWire(chunks[1..]) == ChunksWire(chunks[1..]);
      } else {
        var line := Digits(|chunks[0]|, Hexadecimal);
        assert PiecesOf(chunks)[1..] == PiecesOf(chunks[1..]);
        assert line + CRLF + chunks[0] + CRLF + ChunksWire(chunks[1..])
            == line + CRLF + (chunks[0] + CRLF + ChunksWire(chunks[1..]));
      }
    }
  }

  /** The encoder writes each chunk that is not empty as it is, behind its length in hexadecimal
      without zeros in front, and then the last chunk and no trailers. */
  lemma EncodedIsWritten(chunks: seq<Bytes>)
    ensures Encoded(chunks) == PiecesWire(PiecesOf(chunks)) + ([48, 13, 10] + [13, 10])
  {
    ChunksAreWritten(chunks);
    assert LastChunk() == [48, 13, 10] + [13, 10];
  }
}
