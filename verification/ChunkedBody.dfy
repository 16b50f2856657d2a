/** The chunked transfer coding on a whole buffer (section 7.1 of RFC 9112): what a buffer means,
    and the encoder. */
module ChunkedBody {
  import opened Wrappers
  import opened Octets

  /** How a buffer reads: the body, and the octets behind it. */
  datatype Reading = Incomplete | Malformed | Complete(body: Bytes, rest: Bytes) {
    /** The reading with more body in front. */
    function Behind(front: Bytes): Reading {
      if Complete? then Complete(front + body, rest) else this
    }

    /** The reading with more octets at the end of the buffer. */
    function Before(more: Bytes): Reading {
      if Complete? then Complete(body, rest + more) else this
    }
  }

  // ----- lines

  /** The longest size or trailer line that gets through however the input is cut. */
  const MAX_CLEAN_LINE: nat := 8191

  datatype Line = NoLine | BadLine | LineAt(end: nat)

  /** The first line end. A strict reader also wants the line to be clean: without a bare LF,
      and not too long. */
  function LineEnd(s: Bytes, strict: bool): (r: Line)
    ensures r.LineAt? ==> r.end + 2 <= |s|
  {
    match FindCrlf(s)
    case None => NoLine
    case Some(end) => if strict && (LF in s[..end] || end > MAX_CLEAN_LINE) then BadLine else LineAt(end)
  }

  function BeforeExtension(line: Bytes): Bytes {
    match Find(line, SEMICOLON) case None => line case Some(i) => line[..i]
  }

  /** The size that a line announces, if it is one. */
  function SizeOn(line: Bytes): Option<nat> {
    SizeOf(Trim(BeforeExtension(line)), Hexadecimal)
  }

  // ----- what a buffer means

  /** Trailer lines up to the empty one. */
  function Trailers(s: Bytes, strict: bool): Reading {
    match LineEnd(s, strict)
    case NoLine => Incomplete
    case BadLine => Malformed
    case LineAt(end) => if end == 0 then Complete([], s[2..]) else Trailers(s[end + 2..], strict)
  }

  /** The front of a chunked body: a size line and, unless it announces zero, as many octets
      and CR LF. */
  datatype Front = Unfinished | Bad | Last(after: Bytes) | Chunk(data: Bytes, after: Bytes) {
    function Before(more: Bytes): Front {
      match this
      case Last(after) => Last(after + more)
      case Chunk(data, after) => Chunk(data, after + more)
      case _ => this
    }
  }

  /** What a first line and the octets behind it come to. */
  function FrontAfter(line: Bytes, after: Bytes): Front {
    match SizeOn(line)
    case None => Bad
    case Some(size) =>
      if size == 0 then Last(after)
      else if |after| < size + 2 then Unfinished
      else if after[size..size + 2] != CRLF then Bad
      else Chunk(after[..size], after[size + 2..])
  }

  function FrontOf(s: Bytes, strict: bool): (r: Front)
    ensures r.Last? || r.Chunk? ==> |r.after| < |s|
    ensures r.Chunk? ==> r.data != []
  {
    match LineEnd(s, strict)
    case NoLine => Unfinished
    case BadLine => Bad
    case LineAt(end) => FrontAfter(s[..end], s[end + 2..])
  }

  function Chunks(s: Bytes, strict: bool): Reading
    decreases |s|
  {
    match FrontOf(s, strict)
    case Unfinished => Incomplete
    case Bad => Malformed
    case Last(after) => Trailers(after, strict)
    case Chunk(data, after) => Chunks(after, strict).Behind(data)
  }

  // ----- where a reading ends

  /** What is left is the end of the buffer. */
  lemma {:induction false} TrailersLeaveSuffix(s: Bytes, strict: bool)
    requires Trailers(s, strict).Complete?
    ensures var rest := Trailers(s, strict).rest; |rest| <= |s| && s[|s| - |rest|..] == rest
    decreases |s|
  {
    hide LineEnd;
    var end: nat := LineEnd(s, strict).end;
    if end > 0 {
      TrailersLeaveSuffix(s[end + 2..], strict);
    }
  }

  lemma FrontLeavesSuffix(s: Bytes, strict: bool)
    requires FrontOf(s, strict).Last? || FrontOf(s, strict).Chunk?
    ensures var after := FrontOf(s, strict).after; |after| < |s| && s[|s| - |after|..] == after
  {
    hide SizeOn, LineEnd;
  }

  lemma {:induction false} ChunksLeaveSuffix(s: Bytes, strict: bool)
    requires Chunks(s, strict).Complete?
    ensures var rest := Chunks(s, strict).rest; |rest| <= |s| && s[|s| - |rest|..] == rest
    decreases |s|
  {
    hide FrontOf, Trailers;
    var after := FrontOf(s, strict).after;
    FrontLeavesSuffix(s, strict);
    if FrontOf(s, strict).Last? {
      TrailersLeaveSuffix(after, strict);
    } else {
      ChunksLeaveSuffix(after, strict);
    }
  }

  lemma BehindTwice(r: Reading, a: Bytes, b: Bytes)
    ensures r.Behind(b).Behind(a) == r.Behind(a + b)
  {
    if r.Complete? {
      assert a + (b + r.body) == a + b + r.body;
    }
  }

  lemma BehindNothing(r: Reading)
    ensures r.Behind([]) == r
  {
    if r.Complete? {
      assert [] + r.body == r.body;
    }
  }

  /** The front of what is behind the cursor, in the words of the loop. */
  lemma FrontAt(encoded: Bytes, cursor: nat)
    requires cursor <= |encoded|
    ensures FrontOf(encoded[cursor..], false) ==
            match FindCrlf(encoded[cursor..])
            case None => Unfinished
            case Some(end) =>
              match SizeOn(encoded[cursor..cursor + end])
              case None => Bad
              case Some(size) =>
                var start := cursor + end + 2;
                if size == 0 then Last(encoded[start..])
                else if |encoded| < start + size + 2 then Unfinished
                else if encoded[start + size..start + size + 2] != CRLF then Bad
                else Chunk(encoded[start..start + size], encoded[start + size + 2..])
  {
    hide SizeOn, FindCrlf;
    var left := encoded[cursor..];
    if FindCrlf(left).Some? {
      var end: nat := FindCrlf(left).value;
      assert left[..end] == encoded[cursor..cursor + end];
      assert left[end + 2..] == encoded[cursor + end + 2..];
      if SizeOn(left[..end]).Some? {
        SliceOfTail(encoded, cursor + end + 2, SizeOn(left[..end]).value);
      }
    }
  }

  lemma SliceOfTail(s: Bytes, start: nat, size: nat)
    requires start <= |s|
    ensures start + size + 2 <= |s| ==>
            && s[start..][..size] == s[start..start + size]
            && s[start..][size..size + 2] == s[start + size..start + size + 2]
            && s[start..][size + 2..] == s[start + size + 2..]
  {
  }

  method ReadSize(line: Bytes) returns (size: Option<nat>)
    ensures size == SizeOn(line)
  {
    var sizeLine := line;
    var extension := Find(sizeLine, SEMICOLON);
    if extension.Some? {
      sizeLine := sizeLine[..extension.value];
    }
    size := ParseSize(Trim(sizeLine), Hexadecimal);
  }

  lemma TrailersAt(encoded: Bytes, cursor: nat)
    requires cursor <= |encoded|
    ensures Trailers(encoded[cursor..], false) ==
            match FindCrlf(encoded[cursor..])
            case None => Incomplete
            case Some(end) =>
              if end == 0 then Complete([], encoded[cursor + 2..]) else Trailers(encoded[cursor + end + 2..], false)
  {
    hide FindCrlf;
    var left := encoded[cursor..];
    if FindCrlf(left).Some? {
      assert left[FindCrlf(left).value + 2..] == encoded[cursor + FindCrlf(left).value + 2..];
    }
  }

  // ----- more input

  lemma LineEndStable(s: Bytes, more: Bytes, strict: bool)
    requires !LineEnd(s, strict).NoLine?
    ensures LineEnd(s + more, strict) == LineEnd(s, strict)
    ensures LineEnd(s, strict).LineAt? ==>
            var end: nat := LineEnd(s, strict).end;
            (s + more)[..end] == s[..end] && (s + more)[end + 2..] == s[end + 2..] + more
  {
    FindCrlfStable(s, more);
    var end := FindCrlf(s).value;
    assert (s + more)[..end] == s[..end];
  }

  lemma {:induction false} TrailersStable(s: Bytes, more: Bytes, strict: bool)
    requires !Trailers(s, strict).Incomplete?
    ensures Trailers(s + more, strict) == Trailers(s, strict).Before(more)
    decreases |s|
  {
    LineEndStable(s, more, strict);
    hide LineEnd;
    if LineEnd(s, strict).LineAt? && LineEnd(s, strict).end > 0 {
      TrailersStable(s[LineEnd(s, strict).end + 2..], more, strict);
    }
  }

  lemma FrontAfterStable(line: Bytes, after: Bytes, more: Bytes)
    requires !FrontAfter(line, after).Unfinished?
    ensures FrontAfter(line, after + more) == FrontAfter(line, after).Before(more)
  {
    hide SizeOn;
    if SizeOn(line).Some? {
      SlicesOfLonger(after, more, SizeOn(line).value);
    }
  }

  lemma FrontStable(s: Bytes, more: Bytes, strict: bool)
    requires !FrontOf(s, strict).Unfinished?
    ensures FrontOf(s + more, strict) == FrontOf(s, strict).Before(more)
  {
    hide LineEnd, FrontAfter;
    LineEndStable(s, more, strict);
    if LineEnd(s, strict).LineAt? {
      var end: nat := LineEnd(s, strict).end;
      FrontAfterStable(s[..end], s[end + 2..], more);
    }
  }

  lemma SlicesOfLonger(s: Bytes, more: Bytes, size: nat)
    ensures |s| >= size + 2 ==>
            && (s + more)[..size] == s[..size]
            && (s + more)[size..size + 2] == s[size..size + 2]
            && (s + more)[size + 2..] == s[size + 2..] + more
  {
  }

  /** A verdict on a chunked body stands when more input arrives, and the new input is left
      over. */
  lemma {:induction false} ChunksStable(s: Bytes, more: Bytes, strict: bool)
    requires !Chunks(s, strict).Incomplete?
    ensures Chunks(s + more, strict) == Chunks(s, strict).Before(more)
    decreases |s|
  {
    hide FrontOf, Trailers;
    FrontStable(s, more, strict);
    match FrontOf(s, strict)
    case Last(after) => TrailersStable(after, more, strict);
    case Chunk(data, after) => ChunksStable(after, more, strict);
    case _ =>
  }

  /** What a strict reader accepts, the decoder reads in the same way. */
  lemma {:induction false} StrictTrailers(s: Bytes)
    requires Trailers(s, true).Complete?
    ensures Trailers(s, false) == Trailers(s, true)
    decreases |s|
  {
    assert LineEnd(s, false) == LineEnd(s, true);
    hide LineEnd;
    var end: nat := LineEnd(s, true).end;
    if end > 0 {
      StrictTrailers(s[end + 2..]);
    }
  }

  lemma {:induction false} StrictChunks(s: Bytes)
    requires Chunks(s, true).Complete?
    ensures Chunks(s, false) == Chunks(s, true)
    decreases |s|
  {
    assert FrontOf(s, false) == FrontOf(s, true) by { StrictFront(s); }
    hide FrontOf, Trailers;
    match FrontOf(s, true)
    case Last(after) => StrictTrailers(after);
    case Chunk(data, after) => StrictChunks(after);
  }

  lemma StrictFront(s: Bytes)
    requires FrontOf(s, true).Last? || FrontOf(s, true).Chunk?
    ensures FrontOf(s, false) == FrontOf(s, true)
  {
    assert LineEnd(s, false) == LineEnd(s, true);
  }

  // ----- `encode_chunked_body`

  function ChunkWire(chunk: Bytes): Bytes {
    if chunk == [] then [] else Digits(|chunk|, Hexadecimal) + CRLF + chunk + CRLF
  }

  function ChunksWire(chunks: seq<Bytes>): Bytes {
    if chunks == [] then [] else ChunkWire(chunks[0]) + ChunksWire(chunks[1..])
  }

  function LastChunk(): Bytes {
    [48] + CRLF + CRLF
  }

  function Encoded(chunks: seq<Bytes>): Bytes {
    ChunksWire(chunks) + LastChunk()
  }

  lemma {:induction false} WireOfMore(chunks: seq<Bytes>, chunk: Bytes)
    ensures ChunksWire(chunks + [chunk]) == ChunksWire(chunks) + ChunkWire(chunk)
  {
    hide ChunkWire;
    if chunks == [] {
      assert chunks + [chunk] == [chunk] && [chunk][1..] == [];
      assert ChunkWire(chunk) + [] == [] + ChunkWire(chunk);
    } else {
      assert (chunks + [chunk])[1..] == chunks[1..] + [chunk];
      WireOfMore(chunks[1..], chunk);
    }
  }

  method EncodeChunkedBody(chunks: seq<Bytes>) returns (output: Bytes)
    ensures output == Encoded(chunks)
  {
    hide Digits;
    output := [];
    for i := 0 to |chunks|
      invariant output == ChunksWire(chunks[..i])
    {
      assert chunks[..i + 1] == chunks[..i] + [chunks[i]];
      WireOfMore(chunks[..i], chunks[i]);
      if chunks[i] == [] {
        continue;
      }
      output := output + Digits(|chunks[i]|, Hexadecimal) + CRLF;
      output := output + chunks[i] + CRLF;
    }
    assert chunks[..|chunks|] == chunks;
    output := output + LastChunk();
  }

  predicate Countable(chunks: seq<Bytes>) {
    forall i :: 0 <= i < |chunks| ==> |chunks[i]| <= SIZE_MAX
  }

  /** A line that is made of hexadecimal digits reads as one, even for a strict reader. */
  lemma SizeLineReadBack(size: nat, rest: Bytes)
    requires size <= SIZE_MAX
    ensures var line := Digits(size, Hexadecimal);
      LineEnd(line + CRLF + rest, true) == LineAt(|line|) && SizeOn(line) == Some(size)
  {
    hide Digits, PositionalValue, SizeOf, LineEnd;
    var line := Digits(size, Hexadecimal);
    SizeInHex(size);
    DigitsValue(size, Hexadecimal);
    DigitsRoundTrip(size, Hexadecimal);
    CleanLine(line, rest);
    DigitsStay(line);
  }

  lemma DigitsStay(line: Bytes)
    requires AllDigits(line, Hexadecimal) && line != []
    ensures Trim(BeforeExtension(line)) == line
  {
    assert DigitOf(line[0], Hexadecimal).Some? && DigitOf(line[|line| - 1], Hexadecimal).Some?;
    assert SEMICOLON !in line;
    hide Trim, Find;
    TrimIdentity(line);
  }

  lemma CleanLine(line: Bytes, rest: Bytes)
    requires AllDigits(line, Hexadecimal) && |line| <= MAX_CLEAN_LINE
    ensures LineEnd(line + CRLF + rest, true) == LineAt(|line|)
  {
    var s := line + CRLF + rest;
    assert forall i :: 0 <= i < |line| ==> s[i] == line[i] && DigitOf(line[i], Hexadecimal).Some?;
    FindCrlfIs(s, |line|);
    assert s[..|line|] == line;
  }

  lemma LastChunkReadBack(suffix: Bytes)
    ensures Chunks(LastChunk() + suffix, true) == Complete([], suffix)
  {
    hide LineEnd, SizeOn;
    var s := LastChunk() + suffix;
    assert Digits(0, Hexadecimal) == [48];
    SizeLineReadBack(0, CRLF + suffix);
    assert s == [48] + CRLF + (CRLF + suffix);
    assert s[..1] == [48] && s[3..] == CRLF + suffix;
    hide Digits, Trailers, LastChunk;
    EmptyTrailers(suffix);
  }

  lemma EmptyTrailers(suffix: Bytes)
    ensures Trailers(CRLF + suffix, true) == Complete([], suffix)
  {
    FindCrlfIs(CRLF + suffix, 0);
    assert (CRLF + suffix)[2..] == suffix;
  }

  lemma ChunkReadBack(chunk: Bytes, rest: Bytes)
    requires 0 < |chunk| <= SIZE_MAX
    ensures Chunks(ChunkWire(chunk) + rest, true) == Chunks(rest, true).Behind(chunk)
  {
    hide SizeOn, Digits, LineEnd, Trailers;
    var line := Digits(|chunk|, Hexadecimal);
    var after := chunk + CRLF + rest;
    SizeLineReadBack(|chunk|, after);
    var s := ChunkWire(chunk) + rest;
    assert s == line + CRLF + after;
    assert s[..|line|] == line && s[|line| + 2..] == after;
    assert after[|chunk|..|chunk| + 2] == CRLF && after[..|chunk|] == chunk && after[|chunk| + 2..] == rest;
  }

  /** Decoding undoes encoding for every list of chunks and whatever follows, and a strict
      reader agrees. */
  lemma {:induction false} EncodeUndone(chunks: seq<Bytes>, suffix: Bytes)
    requires Countable(chunks)
    ensures Chunks(Encoded(chunks) + suffix, true) == Complete(Concat(chunks), suffix)
    ensures Chunks(Encoded(chunks) + suffix, false) == Complete(Concat(chunks), suffix)
    decreases |chunks|
  {
    hide Chunks, ChunkWire, LastChunk;
    if chunks == [] {
      assert [] + LastChunk() == LastChunk();
      LastChunkReadBack(suffix);
    } else {
      EncodeUndone(chunks[1..], suffix);
      var rest := Encoded(chunks[1..]) + suffix;
      assert Encoded(chunks) + suffix == ChunkWire(chunks[0]) + rest;
      if chunks[0] == [] {
        assert ChunkWire([]) == [] && [] + rest == rest by { EmptyChunkWire(); }
        assert [] + Concat(chunks[1..]) == Concat(chunks[1..]);
      } else {
        ChunkReadBack(chunks[0], rest);
      }
    }
    StrictChunks(Encoded(chunks) + suffix);
  }

  lemma EmptyChunkWire()
    ensures ChunkWire([]) == []
  {
  }

  lemma {:induction false} TrailersNeverMalformed(s: Bytes)
    ensures !Trailers(s, false).Malformed?
    ensures Trailers(s, false).Complete? ==> Trailers(s, false).body == []
    decreases |s|
  {
    if LineEnd(s, false).LineAt? {
      TrailersNeverMalformed(s[LineEnd(s, false).end + 2..]);
    }
  }

  lemma TrailersCanEndHere(s: Bytes)
    requires FindCrlf(s).None?
    ensures exists more, rest :: Trailers(s + more, false) == Complete([], rest)
  {
    hide FindCrlf, Trailers;
    var more := CRLF + CRLF;
    var whole := s + more;
    forall j | 0 <= j < |s|
      ensures !CrlfAt(whole, j)
    {
      assert !CrlfAt(s, j);
    }
    FindCrlfIs(whole, |s|);
    assert whole[0..] == whole && whole[|s| + 2..] == CRLF;
    TrailersAt(whole, 0);
    TwoEmptyTrailers();
    if s == [] {
      assert whole == more && whole[2..] == CRLF;
      assert Trailers(s + more, false) == Complete([], CRLF);
    } else {
      assert Trailers(s + more, false) == Complete([], []);
    }
  }

  lemma TwoEmptyTrailers()
    ensures Trailers(CRLF, false) == Complete([], [])
  {
    FindCrlfIs(CRLF, 0);
  }

  lemma {:induction false} TrailersCanEnd(s: Bytes)
    requires Trailers(s, false).Incomplete?
    ensures exists more, rest :: Trailers(s + more, false) == Complete([], rest)
    decreases |s|
  {
    hide FindCrlf;
    if FindCrlf(s).Some? {
      var end: nat := FindCrlf(s).value;
      TrailersCanEnd(s[end + 2..]);
      var more, rest :| Trailers(s[end + 2..] + more, false) == Complete([], rest);
      LineEndStable(s, more, false);
      assert Trailers(s + more, false) == Complete([], rest);
    } else {
      TrailersCanEndHere(s);
    }
  }
}
