/** The two decoders for a chunked body on a whole buffer, in the arithmetic of the source: a
    cursor and chunk sizes of 64 bits, whose sums wrap. When they give what the buffer means,
    and what else they can give. */
module ChunkedDecoding {
  import opened Wrappers
  import opened Octets
  import opened ChunkedBody

  /** The most octets that a string can have. */
  const MAX_STRING: nat := 0x7FFF_FFFF_FFFF_FFFF

  /** A sum of `std::size_t` values. */
  function Word(n: nat): (r: nat)
    ensures r <= SIZE_MAX
  {
    n % (SIZE_MAX + 1)
  }

  lemma WordIs(n: nat)
    requires n <= 2 * SIZE_MAX + 1
    ensures Word(n) == if n <= SIZE_MAX then n else n - SIZE_MAX - 1
  {
  }

  /** `std::string_view::substr`, which throws for a position behind the end. */
  function Substr(s: Bytes, pos: nat, count: nat): Bytes
    requires pos <= |s|
  {
    s[pos..if pos + count < |s| then pos + count else |s|]
  }

  // ----- the loop over the chunks

  /** How the loop over the chunks ends: the input is too short; it is malformed; a size of zero,
      with the cursor behind its line; `substr` throws; or never. */
  datatype Halt = Short | Broken | AtLast(cursor: nat) | OutOfRange | Never

  /** One turn of the loop. */
  datatype Hop = HopTo(data: Bytes, cursor: nat) | HopEnd(halt: Halt)

  /** From behind a size line. */
  function ChunkHop(encoded: Bytes, start: nat, size: nat): (r: Hop)
    requires start <= |encoded|
    ensures r.HopTo? ==> r.cursor <= |encoded|
    ensures r.HopEnd? ==> r.halt in {Short, Broken, OutOfRange}
  {
    if |encoded| < Word(start + size + 2) then HopEnd(Short)
    else if Word(start + size) > |encoded| then HopEnd(OutOfRange)
    else if Substr(encoded, Word(start + size), 2) != CRLF then HopEnd(Broken)
    else HopTo(Substr(encoded, start, size), Word(start + size) + 2)
  }

  function HopFrom(encoded: Bytes, cursor: nat): (r: Hop)
    requires cursor <= |encoded|
    ensures r.HopTo? ==> r.cursor <= |encoded|
    ensures r.HopEnd? ==> r.halt != Never
    ensures r.HopEnd? && r.halt.AtLast? ==> r.halt.cursor <= |encoded|
  {
    match FindCrlf(encoded[cursor..])
    case None => HopEnd(Short)
    case Some(end) =>
      match SizeOn(encoded[cursor..cursor + end])
      case None => HopEnd(Broken)
      case Some(size) =>
        if size == 0 then HopEnd(AtLast(cursor + end + 2)) else ChunkHop(encoded, cursor + end + 2, size)
  }

  /** The loop, and the octets that it has put to the body. */
  datatype Walked = Walked(halt: Halt, body: Bytes) {
    function Behind(front: Bytes): Walked {
      Walked(halt, front + body)
    }
  }

  /** At most `turns` turns. */
  function Walk(encoded: Bytes, cursor: nat, turns: nat): (r: Walked)
    requires cursor <= |encoded|
    ensures r.halt.AtLast? ==> r.halt.cursor <= |encoded|
    decreases turns
  {
    if turns == 0 then Walked(Never, [])
    else
      match HopFrom(encoded, cursor)
      case HopEnd(halt) => Walked(halt, [])
      case HopTo(data, next) => Walk(encoded, next, turns - 1).Behind(data)
  }

  lemma {:induction false} MoreTurns(encoded: Bytes, cursor: nat, turns: nat, more: nat)
    requires cursor <= |encoded| && turns <= more && Walk(encoded, cursor, turns).halt != Never
    ensures Walk(encoded, cursor, more) == Walk(encoded, cursor, turns)
    decreases turns
  {
    hide HopFrom;
    if HopFrom(encoded, cursor).HopTo? {
      MoreTurns(encoded, HopFrom(encoded, cursor).cursor, turns - 1, more - 1);
    }
  }

  // ----- a loop that has not ended after a turn for each octet never ends

  /** The cursors of a loop that takes exactly `turns` turns to its end: no two are equal, because
      from each the way to the end has another length. */
  lemma {:induction false} CursorsDiffer(encoded: Bytes, cursor: nat, turns: nat) returns (seen: set<nat>)
    requires cursor <= |encoded| && Walk(encoded, cursor, turns).halt != Never
    requires turns > 0 && Walk(encoded, cursor, turns - 1).halt == Never
    ensures |seen| == turns
    ensures forall c :: c in seen ==> c <= |encoded| && Walk(encoded, c, turns).halt != Never
    decreases turns
  {
    hide HopFrom;
    if turns == 1 {
      seen := {cursor};
    } else {
      var rest := CursorsDiffer(encoded, HopFrom(encoded, cursor).cursor, turns - 1);
      forall c | c in rest
        ensures Walk(encoded, c, turns).halt != Never
      {
        MoreTurns(encoded, c, turns - 1, turns);
      }
      seen := rest + {cursor};
    }
  }

  lemma {:induction false} AtMost(seen: set<nat>, n: nat)
    requires forall c :: c in seen ==> c <= n
    ensures |seen| <= n + 1
    decreases n
  {
    if n > 0 {
      AtMost(seen - {n}, n - 1);
    } else {
      assert seen <= {0};
      SubsetIsSmaller(seen, {0});
    }
  }

  lemma {:induction false} SubsetIsSmaller(a: set<nat>, b: set<nat>)
    requires a <= b
    ensures |a| <= |b|
    decreases |a|
  {
    if a != {} {
      var x :| x in a;
      SubsetIsSmaller(a - {x}, b - {x});
    }
  }

  lemma {:induction false} ShortestWalk(encoded: Bytes, cursor: nat, turns: nat) returns (least: nat)
    requires cursor <= |encoded| && Walk(encoded, cursor, turns).halt != Never
    ensures 0 < least <= turns && Walk(encoded, cursor, least).halt != Never
    ensures Walk(encoded, cursor, least - 1).halt == Never
    decreases turns
  {
    hide HopFrom;
    if Walk(encoded, cursor, turns - 1).halt == Never {
      least := turns;
    } else {
      least := ShortestWalk(encoded, cursor, turns - 1);
    }
  }

  /** The loop of the source has no bound on its turns: one that has not ended after `|encoded| + 1`
      of them comes back to where it was, and never ends. */
  lemma NeverIsForGood(encoded: Bytes)
    ensures Walk(encoded, 0, |encoded| + 1).halt == Never <==>
            forall turns: nat :: Walk(encoded, 0, turns).halt == Never
  {
    hide Walk;
    forall turns: nat | Walk(encoded, 0, turns).halt != Never
      ensures Walk(encoded, 0, |encoded| + 1).halt != Never
    {
      var least := ShortestWalk(encoded, 0, turns);
      var seen := CursorsDiffer(encoded, 0, least);
      AtMost(seen, |encoded|);
      MoreTurns(encoded, 0, least, |encoded| + 1);
    }
  }

  // ----- the framer's decoder and the one for upstream responses

  datatype Decoded =
    | DecodeIncomplete | DecodeMalformed | DecodeComplete(body: Bytes, consumed: nat) | DecodeThrows | DecodeHangs

  /** A reading of `s` with the octets behind the body counted instead of kept. */
  function Counted(s: Bytes, r: Reading): Decoded
    requires r.Complete? ==> |r.rest| <= |s|
  {
    match r
    case Incomplete => DecodeIncomplete
    case Malformed => DecodeMalformed
    case Complete(body, rest) => DecodeComplete(body, |s| - |rest|)
  }

  /** The trailer lines behind the last size line. */
  function AfterLast(encoded: Bytes, at: nat, body: Bytes): (r: Decoded)
    requires at <= |encoded|
    ensures r.DecodeComplete? ==> at < r.consumed <= |encoded| && r.body == body
    ensures r.DecodeIncomplete? || r.DecodeComplete?
  {
    TrailersNeverMalformed(encoded[at..]);
    match Trailers(encoded[at..], false)
    case Complete(_, rest) =>
      TrailersLeaveSuffix(encoded[at..], false);
      TrailersTake(encoded[at..]);
      DecodeComplete(body, |encoded| - |rest|)
    case _ => DecodeIncomplete
  }

  lemma {:induction false} TrailersTake(s: Bytes)
    requires Trailers(s, false).Complete?
    ensures |Trailers(s, false).rest| < |s|
    decreases |s|
  {
    if LineEnd(s, false).end > 0 {
      TrailersTake(s[LineEnd(s, false).end + 2..]);
    }
  }

  function Decoding(encoded: Bytes): (r: Decoded)
    ensures r.DecodeComplete? ==> 0 < r.consumed <= |encoded|
  {
    var walked := Walk(encoded, 0, |encoded| + 1);
    match walked.halt
    case Short => DecodeIncomplete
    case Broken => DecodeMalformed
    case AtLast(at) => AfterLast(encoded, at, walked.body)
    case OutOfRange => DecodeThrows
    case Never => DecodeHangs
  }

  datatype Upstream = NoBody | UpstreamBody(body: Bytes) | UpstreamThrows | UpstreamHangs

  /** The decoder for upstream responses stops at the last chunk. */
  function UpstreamDecoding(encoded: Bytes): Upstream {
    var walked := Walk(encoded, 0, |encoded| + 1);
    match walked.halt
    case Short => NoBody
    case Broken => NoBody
    case AtLast(_) => UpstreamBody(walked.body)
    case OutOfRange => UpstreamThrows
    case Never => UpstreamHangs
  }

  lemma BehindMore(w: Walked, a: Bytes, b: Bytes)
    ensures w.Behind(b).Behind(a) == w.Behind(a + b)
  {
    assert a + (b + w.body) == a + b + w.body;
  }

  lemma WalkUnfold(encoded: Bytes, cursor: nat, turns: nat, body: Bytes)
    requires cursor <= |encoded| && turns > 0
    ensures Walk(encoded, cursor, turns).Behind(body) ==
            match HopFrom(encoded, cursor)
            case HopEnd(halt) => Walked(halt, body)
            case HopTo(data, next) => Walk(encoded, next, turns - 1).Behind(body + data)
  {
    hide HopFrom;
    assert body + [] == body;
    if HopFrom(encoded, cursor).HopTo? {
      var data, next := HopFrom(encoded, cursor).data, HopFrom(encoded, cursor).cursor;
      BehindMore(Walk(encoded, next, turns - 1), body, data);
    }
  }

  /** What the loop comes to behind a size line. */
  function Onward(encoded: Bytes, start: nat, size: nat, turns: nat, body: Bytes): Walked
    requires start <= |encoded| && turns > 0
  {
    match ChunkHop(encoded, start, size)
    case HopEnd(halt) => Walked(halt, body)
    case HopTo(data, next) => Walk(encoded, next, turns - 1).Behind(body + data)
  }

  /** One turn, in the words of the loop. */
  lemma TurnAt(encoded: Bytes, cursor: nat, turns: nat, body: Bytes)
    requires cursor <= |encoded| && turns > 0
    ensures Walk(encoded, cursor, turns).Behind(body) ==
            match FindCrlf(encoded[cursor..])
            case None => Walked(Short, body)
            case Some(end) =>
              match SizeOn(encoded[cursor..cursor + end])
              case None => Walked(Broken, body)
              case Some(size) =>
                if size == 0 then Walked(AtLast(cursor + end + 2), body)
                else Onward(encoded, cursor + end + 2, size, turns, body)
  {
    hide SizeOn, FindCrlf, ChunkHop, Walk;
    WalkUnfold(encoded, cursor, turns, body);
  }

  lemma OnwardIs(encoded: Bytes, start: nat, size: nat, turns: nat, body: Bytes)
    requires start <= |encoded| && turns > 0
    ensures Onward(encoded, start, size, turns, body) ==
            if |encoded| < Word(start + size + 2) then Walked(Short, body)
            else if Word(start + size) > |encoded| then Walked(OutOfRange, body)
            else if Substr(encoded, Word(start + size), 2) != CRLF then Walked(Broken, body)
            else
              Walk(encoded, CursorBehind(encoded, Word(start + size)), turns - 1)
              .Behind(body + Substr(encoded, start, size))
  {
    hide Walk, Word;
  }

  /** Behind a CR LF. */
  function CursorBehind(encoded: Bytes, cursor: nat): (r: nat)
    requires cursor <= |encoded| && Substr(encoded, cursor, 2) == CRLF
    ensures r == cursor + 2 <= |encoded|
  {
    cursor + 2
  }

  /** `decode_chunked_body` of the framer, with its cursor. The turns are counted here to give
      the endless loop a verdict. */
  method DecodeChunkedBody(encoded: Bytes) returns (r: Decoded)
    ensures r == Decoding(encoded)
  {
    hide SizeOn, Find, FindCrlf, Walk, Word, AfterLast, HopFrom, ChunkHop, Substr, Onward;
    var body: Bytes, cursor: nat, turns: nat := [], 0, 0;
    assert Walk(encoded, 0, |encoded| + 1).Behind([]) == Walk(encoded, 0, |encoded| + 1);
    while turns <= |encoded|
      invariant cursor <= |encoded| && turns <= |encoded| + 1
      invariant Walk(encoded, 0, |encoded| + 1) == Walk(encoded, cursor, |encoded| + 1 - turns).Behind(body)
    {
      TurnAt(encoded, cursor, |encoded| + 1 - turns, body);
      turns := turns + 1;
      var lineEnd := FindCrlf(encoded[cursor..]);
      if lineEnd.None? {
        return DecodeIncomplete;
      }
      var size := ReadSize(encoded[cursor..cursor + lineEnd.value]);
      if size.None? {
        return DecodeMalformed;
      }
      cursor := cursor + lineEnd.value + 2;
      if size.value == 0 {
        r := SkipTrailers(encoded, body, cursor);
        return;
      }
      OnwardIs(encoded, cursor, size.value, |encoded| + 2 - turns, body);
      if |encoded| < Word(cursor + size.value + 2) {
        return DecodeIncomplete;
      }
      body := body + Substr(encoded, cursor, size.value);
      cursor := Word(cursor + size.value);
      if cursor > |encoded| {
        return DecodeThrows;
      }
      if Substr(encoded, cursor, 2) != CRLF {
        return DecodeMalformed;
      }
      cursor := cursor + 2;
    }
    NoTurnsLeft(encoded, cursor);
    r := DecodeHangs;
  }

  lemma NoTurnsLeft(encoded: Bytes, cursor: nat)
    requires cursor <= |encoded|
    ensures Walk(encoded, cursor, 0).halt == Never
  {
  }

  /** The inner loop, over the trailer lines. */
  method SkipTrailers(encoded: Bytes, body: Bytes, start: nat) returns (r: Decoded)
    requires start <= |encoded|
    ensures r == AfterLast(encoded, start, body)
  {
    hide FindCrlf, Trailers;
    var cursor := start;
    if Trailers(encoded[start..], false).Complete? {
      TrailersLeaveSuffix(encoded[start..], false);
    }
    while true
      invariant cursor <= |encoded|
      invariant Trailers(encoded[cursor..], false) == Trailers(encoded[start..], false)
      decreases |encoded| - cursor
    {
      TrailersAt(encoded, cursor);
      var trailerEnd := FindCrlf(encoded[cursor..]);
      if trailerEnd.None? {
        return DecodeIncomplete;
      }
      if trailerEnd.value == 0 {
        return DecodeComplete(body, cursor + 2);
      }
      cursor := cursor + trailerEnd.value + 2;
    }
  }

  method DecodeUpstreamBody(encoded: Bytes) returns (r: Upstream)
    ensures r == UpstreamDecoding(encoded)
  {
    hide SizeOn, Find, FindCrlf, Walk, Word, HopFrom, ChunkHop, Substr, Onward;
    var body: Bytes, cursor: nat, turns: nat := [], 0, 0;
    assert Walk(encoded, 0, |encoded| + 1).Behind([]) == Walk(encoded, 0, |encoded| + 1);
    while turns <= |encoded|
      invariant cursor <= |encoded| && turns <= |encoded| + 1
      invariant Walk(encoded, 0, |encoded| + 1) == Walk(encoded, cursor, |encoded| + 1 - turns).Behind(body)
    {
      TurnAt(encoded, cursor, |encoded| + 1 - turns, body);
      turns := turns + 1;
      var lineEnd := FindCrlf(encoded[cursor..]);
      if lineEnd.None? {
        return NoBody;
      }
      var size := ReadSize(encoded[cursor..cursor + lineEnd.value]);
      if size.None? {
        return NoBody;
      }
      cursor := cursor + lineEnd.value + 2;
      if size.value == 0 {
        return UpstreamBody(body);
      }
      OnwardIs(encoded, cursor, size.value, |encoded| + 2 - turns, body);
      if |encoded| < Word(cursor + size.value + 2) {
        return NoBody;
      }
      body := body + Substr(encoded, cursor, size.value);
      cursor := Word(cursor + size.value);
      if cursor > |encoded| {
        return UpstreamThrows;
      }
      if Substr(encoded, cursor, 2) != CRLF {
        return NoBody;
      }
      cursor := cursor + 2;
    }
    NoTurnsLeft(encoded, cursor);
    r := UpstreamHangs;
  }

  // ----- when the decoders give what the buffer means

  /** Reading on from `cursor` comes to a size line whose sum wraps and passes the test for it.
      The largest size fails the test if nothing is behind its line. */
  predicate WrapsFrom(encoded: Bytes, cursor: nat)
    requires cursor <= |encoded|
    decreases |encoded| - cursor
  {
    match FindCrlf(encoded[cursor..])
    case None => false
    case Some(end) =>
      var start := cursor + end + 2;
      match SizeOn(encoded[cursor..cursor + end])
      case None => false
      case Some(size) =>
        if start + size + 2 > SIZE_MAX then size < SIZE_MAX || start < |encoded|
        else
          && size > 0 && start + size + 2 <= |encoded| && encoded[start + size..start + size + 2] == CRLF
          && WrapsFrom(encoded, start + size + 2)
  }

  predicate Wraps(encoded: Bytes) {
    WrapsFrom(encoded, 0)
  }

  lemma SizeFits(line: Bytes)
    ensures SizeOn(line).Some? ==> SizeOn(line).value <= SIZE_MAX
  {
  }

  /** Where the sum does not wrap, the cursor goes behind the chunk. */
  lemma PlainHop(encoded: Bytes, start: nat, size: nat)
    requires start <= |encoded| && start + size + 2 <= SIZE_MAX
    ensures ChunkHop(encoded, start, size) ==
            if |encoded| < start + size + 2 then HopEnd(Short)
            else if encoded[start + size..start + size + 2] != CRLF then HopEnd(Broken)
            else HopTo(encoded[start..start + size], start + size + 2)
  {
    WordIs(start + size + 2);
    WordIs(start + size);
    hide Word;
  }

  /** Where it wraps, the test lets it through unless it is the largest size with nothing behind
      its line; all the rest of the buffer is taken; and the cursor goes back. */
  lemma WrappedHop(encoded: Bytes, start: nat, size: nat)
    requires start <= |encoded| <= MAX_STRING && size <= SIZE_MAX && start + size + 2 > SIZE_MAX
    ensures ChunkHop(encoded, start, size) ==
            if size == SIZE_MAX && start == |encoded| then HopEnd(Short)
            else if start + size <= SIZE_MAX then HopEnd(OutOfRange)
            else
              var back: nat := start + size - SIZE_MAX - 1;
              if Substr(encoded, back, 2) != CRLF then HopEnd(Broken) else HopTo(encoded[start..], back + 2)
  {
    WordIs(start + size + 2);
    WordIs(start + size);
    hide Word;
    assert encoded[start..|encoded|] == encoded[start..];
  }

  lemma HopAtLine(encoded: Bytes, cursor: nat, end: nat, size: nat)
    requires cursor <= |encoded| && FindCrlf(encoded[cursor..]) == Some(end)
    requires SizeOn(encoded[cursor..cursor + end]) == Some(size)
    ensures var start := cursor + end + 2;
      && start <= |encoded|
      && HopFrom(encoded, cursor) == if size == 0 then HopEnd(AtLast(start)) else ChunkHop(encoded, start, size)
  {
    hide SizeOn, FindCrlf, ChunkHop;
  }

  lemma WrapsAtLine(encoded: Bytes, cursor: nat, end: nat, size: nat)
    requires cursor <= |encoded| && FindCrlf(encoded[cursor..]) == Some(end)
    requires SizeOn(encoded[cursor..cursor + end]) == Some(size)
    ensures var start := cursor + end + 2;
      && start <= |encoded|
      && WrapsFrom(encoded, cursor) ==
         if start + size + 2 > SIZE_MAX then size < SIZE_MAX || start < |encoded|
         else
           && size > 0 && start + size + 2 <= |encoded| && encoded[start + size..start + size + 2] == CRLF
           && WrapsFrom(encoded, start + size + 2)
  {
    hide SizeOn, FindCrlf;
  }

  lemma FrontAtLine(encoded: Bytes, cursor: nat, end: nat, size: nat)
    requires cursor <= |encoded| && FindCrlf(encoded[cursor..]) == Some(end)
    requires SizeOn(encoded[cursor..cursor + end]) == Some(size)
    ensures var start := cursor + end + 2;
      && start <= |encoded|
      && FrontOf(encoded[cursor..], false) ==
         if size == 0 then Last(encoded[start..])
         else if |encoded| < start + size + 2 then Unfinished
         else if encoded[start + size..start + size + 2] != CRLF then Bad
         else Chunk(encoded[start..start + size], encoded[start + size + 2..])
  {
    hide SizeOn, FindCrlf, FrontOf;
    FrontAt(encoded, cursor);
  }

  lemma NoSizeLine(encoded: Bytes, cursor: nat)
    requires cursor <= |encoded|
    requires FindCrlf(encoded[cursor..]).Some? ==>
        SizeOn(encoded[cursor..cursor + FindCrlf(encoded[cursor..]).value]).None?
    ensures !WrapsFrom(encoded, cursor)
    ensures var found := FindCrlf(encoded[cursor..]).Some?;
      && HopFrom(encoded, cursor) == HopEnd(if found then Broken else Short)
      && FrontOf(encoded[cursor..], false) == if found then Bad else Unfinished
  {
    hide SizeOn, FindCrlf, FrontOf;
    FrontAt(encoded, cursor);
  }

  /** How a turn of the loop relates to what the octets from its cursor on mean. */
  predicate Follows(encoded: Bytes, cursor: nat, hop: Hop, front: Front, wraps: bool)
    requires hop.HopTo? ==> hop.cursor <= |encoded|
    requires hop.HopEnd? && hop.halt.AtLast? ==> hop.halt.cursor <= |encoded|
  {
    if wraps && !front.Chunk? then front.Unfinished? && (hop.HopEnd? ==> hop.halt in {Broken, OutOfRange})
    else
      match hop
      case HopEnd(Short) => front.Unfinished?
      case HopEnd(Broken) => front.Bad?
      case HopEnd(AtLast(at)) => cursor < at && front == Last(encoded[at..])
      case HopEnd(_) => false
      case HopTo(data, next) =>
        cursor < next && front == Chunk(data, encoded[next..]) && WrapsFrom(encoded, next) == wraps
  }

  lemma LineFollows(encoded: Bytes, cursor: nat, end: nat, size: nat)
    requires cursor <= |encoded| <= MAX_STRING && FindCrlf(encoded[cursor..]) == Some(end)
    requires SizeOn(encoded[cursor..cursor + end]) == Some(size) && cursor + end + 2 + size + 2 <= SIZE_MAX
    ensures Follows(encoded, cursor, HopFrom(encoded, cursor), FrontOf(encoded[cursor..], false),
                    WrapsFrom(encoded, cursor))
  {
    hide SizeOn, FindCrlf, FrontOf, ChunkHop, HopFrom, WrapsFrom;
    HopAtLine(encoded, cursor, end, size);
    WrapsAtLine(encoded, cursor, end, size);
    FrontAtLine(encoded, cursor, end, size);
    PlainHop(encoded, cursor + end + 2, size);
  }

  lemma WrappedFollows(encoded: Bytes, cursor: nat, end: nat, size: nat)
    requires cursor <= |encoded| <= MAX_STRING && FindCrlf(encoded[cursor..]) == Some(end)
    requires SizeOn(encoded[cursor..cursor + end]) == Some(size) && cursor + end + 2 + size + 2 > SIZE_MAX
    ensures Follows(encoded, cursor, HopFrom(encoded, cursor), FrontOf(encoded[cursor..], false),
                    WrapsFrom(encoded, cursor))
  {
    hide SizeOn, FindCrlf, FrontOf, ChunkHop, HopFrom, WrapsFrom, Substr;
    SizeFits(encoded[cursor..cursor + end]);
    HopAtLine(encoded, cursor, end, size);
    WrapsAtLine(encoded, cursor, end, size);
    FrontAtLine(encoded, cursor, end, size);
    WrappedHop(encoded, cursor + end + 2, size);
  }

  lemma HopFollows(encoded: Bytes, cursor: nat)
    requires cursor <= |encoded| <= MAX_STRING
    ensures Follows(encoded, cursor, HopFrom(encoded, cursor), FrontOf(encoded[cursor..], false),
                    WrapsFrom(encoded, cursor))
  {
    hide SizeOn, FindCrlf, FrontOf, ChunkHop, HopFrom, WrapsFrom;
    if FindCrlf(encoded[cursor..]).Some?
        && SizeOn(encoded[cursor..cursor + FindCrlf(encoded[cursor..]).value]).Some? {
      var end: nat := FindCrlf(encoded[cursor..]).value;
      var size: nat := SizeOn(encoded[cursor..cursor + end]).value;
      if cursor + end + 2 + size + 2 <= SIZE_MAX {
        LineFollows(encoded, cursor, end, size);
      } else {
        WrappedFollows(encoded, cursor, end, size);
      }
    } else {
      NoSizeLine(encoded, cursor);
    }
  }

  /** The end of a loop, as a reading of the octets that it started from. */
  predicate Means(encoded: Bytes, walked: Walked, reading: Reading)
    requires walked.halt.AtLast? ==> walked.halt.cursor <= |encoded|
  {
    match walked.halt
    case Short => reading.Incomplete?
    case Broken => reading.Malformed?
    case AtLast(at) => reading == Trailers(encoded[at..], false).Behind(walked.body)
    case _ => false
  }

  lemma MeansBehind(encoded: Bytes, walked: Walked, reading: Reading, front: Bytes)
    requires walked.halt.AtLast? ==> walked.halt.cursor <= |encoded|
    requires Means(encoded, walked, reading)
    ensures Means(encoded, walked.Behind(front), reading.Behind(front))
  {
    hide Trailers;
    if walked.halt.AtLast? {
      BehindTwice(Trailers(encoded[walked.halt.cursor..], false), front, walked.body);
    }
  }

  lemma {:induction false} WalkMeans(encoded: Bytes, cursor: nat, turns: nat)
    requires cursor <= |encoded| <= MAX_STRING && |encoded| - cursor < turns && !WrapsFrom(encoded, cursor)
    ensures Means(encoded, Walk(encoded, cursor, turns), Chunks(encoded[cursor..], false))
    decreases turns
  {
    hide HopFrom, FrontOf, WrapsFrom, Trailers;
    HopFollows(encoded, cursor);
    match HopFrom(encoded, cursor)
    case HopTo(data, next) =>
      WalkMeans(encoded, next, turns - 1);
      MeansBehind(encoded, Walk(encoded, next, turns - 1), Chunks(encoded[next..], false), data);
    case HopEnd(AtLast(at)) => BehindNothing(Trailers(encoded[at..], false));
    case _ =>
  }

  /** Where the sum wraps, the octets are a chunk that is far from finished. */
  lemma {:induction false} WrappedIsIncomplete(encoded: Bytes, cursor: nat)
    requires cursor <= |encoded| <= MAX_STRING && WrapsFrom(encoded, cursor)
    ensures Chunks(encoded[cursor..], false).Incomplete?
    decreases |encoded| - cursor
  {
    hide HopFrom, FrontOf, WrapsFrom, Trailers;
    HopFollows(encoded, cursor);
    if FrontOf(encoded[cursor..], false).Chunk? {
      WrappedIsIncomplete(encoded, HopFrom(encoded, cursor).cursor);
    }
  }

  lemma Unwrapped(encoded: Bytes)
    requires |encoded| <= MAX_STRING && !Chunks(encoded, false).Incomplete?
    ensures !Wraps(encoded)
  {
    hide Chunks;
    assert encoded[0..] == encoded;
    if Wraps(encoded) {
      WrappedIsIncomplete(encoded, 0);
    }
  }

  lemma CountedAfterLast(encoded: Bytes, at: nat, body: Bytes)
    requires at <= |encoded| && Chunks(encoded, false) == Trailers(encoded[at..], false).Behind(body)
    requires Chunks(encoded, false).Complete? ==> |Chunks(encoded, false).rest| <= |encoded|
    ensures AfterLast(encoded, at, body) == Counted(encoded, Chunks(encoded, false))
  {
    hide Chunks, Trailers;
    TrailersNeverMalformed(encoded[at..]);
    assert body + [] == body;
  }

  lemma UnwrappedDecoding(encoded: Bytes)
    requires |encoded| <= MAX_STRING && !Wraps(encoded)
    ensures Chunks(encoded, false).Complete? ==> |Chunks(encoded, false).rest| <= |encoded|
    ensures Decoding(encoded) == Counted(encoded, Chunks(encoded, false))
  {
    hide Chunks, Walk, WrapsFrom, AfterLast, Trailers;
    assert encoded[0..] == encoded;
    WalkMeans(encoded, 0, |encoded| + 1);
    if Chunks(encoded, false).Complete? {
      ChunksLeaveSuffix(encoded, false);
    }
    var walked := Walk(encoded, 0, |encoded| + 1);
    if walked.halt.AtLast? {
      CountedAfterLast(encoded, walked.halt.cursor, walked.body);
    }
  }

  /** When the decoder waits, more octets are in fact needed. Any other verdict is what the octets
      mean if and only if no sum wraps; and then waiting is exact as well. */
  lemma DecodesExactly(encoded: Bytes)
    requires |encoded| <= MAX_STRING
    ensures Chunks(encoded, false).Complete? ==> |Chunks(encoded, false).rest| <= |encoded|
    ensures Decoding(encoded).DecodeIncomplete? ==> Chunks(encoded, false).Incomplete?
    ensures !Decoding(encoded).DecodeIncomplete? ==>
              (Decoding(encoded) == Counted(encoded, Chunks(encoded, false)) <==> !Wraps(encoded))
    ensures !Wraps(encoded) ==> Decoding(encoded) == Counted(encoded, Chunks(encoded, false))
  {
    hide Decoding, Chunks, WrapsFrom;
    if Wraps(encoded) {
      assert encoded[0..] == encoded;
      WrappedIsIncomplete(encoded, 0);
    } else {
      UnwrappedDecoding(encoded);
    }
  }

  // ----- more input

  lemma SameSlices(encoded: Bytes, more: Bytes, cursor: nat)
    requires cursor <= |encoded|
    ensures (encoded + more)[cursor..] == encoded[cursor..] + more
    ensures forall end: nat :: cursor <= end <= |encoded| ==> (encoded + more)[cursor..end] == encoded[cursor..end]
  {
  }

  lemma SubstrGrows(encoded: Bytes, more: Bytes, pos: nat, count: nat)
    requires pos <= |encoded|
    ensures |Substr(encoded, pos, count)| == count ==> Substr(encoded + more, pos, count) == Substr(encoded, pos, count)
    ensures |Substr(encoded, pos, count)| <= |Substr(encoded + more, pos, count)|
  {
    SameSlices(encoded, more, pos);
  }

  lemma ChunkHopGrows(encoded: Bytes, more: Bytes, start: nat, size: nat)
    requires start <= |encoded| && ChunkHop(encoded, start, size).HopTo?
    ensures var hop, later := ChunkHop(encoded, start, size), ChunkHop(encoded + more, start, size);
      later.HopTo? && later.cursor == hop.cursor && |hop.data| <= |later.data|
  {
    hide Word;
    SubstrGrows(encoded, more, Word(start + size), 2);
    SubstrGrows(encoded, more, start, size);
  }

  lemma HopGrows(encoded: Bytes, more: Bytes, cursor: nat)
    requires cursor <= |encoded|
    ensures var hop, later := HopFrom(encoded, cursor), HopFrom(encoded + more, cursor);
      && (hop.HopTo? ==> later.HopTo? && later.cursor == hop.cursor && |hop.data| <= |later.data|)
      && (hop.HopEnd? && hop.halt.AtLast? ==> later == hop)
  {
    hide SizeOn, FindCrlf, ChunkHop;
    SameSlices(encoded, more, cursor);
    if FindCrlf(encoded[cursor..]).Some? {
      FindCrlfStable(encoded[cursor..], more);
      var end: nat := FindCrlf(encoded[cursor..]).value;
      var size := SizeOn(encoded[cursor..cursor + end]);
      if size.Some? && size.value > 0 && ChunkHop(encoded, cursor + end + 2, size.value).HopTo? {
        ChunkHopGrows(encoded, more, cursor + end + 2, size.value);
      }
    }
  }

  /** A loop that has come to the last chunk comes there with more octets as well, and has put no
      fewer to the body. */
  lemma {:induction false} WalkGrows(encoded: Bytes, more: Bytes, cursor: nat, turns: nat)
    requires cursor <= |encoded| && Walk(encoded, cursor, turns).halt.AtLast?
    ensures var walked, later := Walk(encoded, cursor, turns), Walk(encoded + more, cursor, turns);
      later.halt == walked.halt && |walked.body| <= |later.body|
    decreases turns
  {
    hide HopFrom;
    HopGrows(encoded, more, cursor);
    if HopFrom(encoded, cursor).HopTo? {
      WalkGrows(encoded, more, HopFrom(encoded, cursor).cursor, turns - 1);
    }
  }

  lemma ChunkHopChanges(encoded: Bytes, more: Bytes, start: nat, size: nat)
    requires start <= |encoded| <= MAX_STRING && size <= SIZE_MAX && more != []
    requires ChunkHop(encoded, start, size).HopTo?
    ensures var hop, later := ChunkHop(encoded, start, size), ChunkHop(encoded + more, start, size);
      && later.HopTo?
      && if start + size + 2 <= SIZE_MAX then later == hop else |hop.data| < |later.data|
  {
    ChunkHopGrows(encoded, more, start, size);
    if start + size + 2 <= SIZE_MAX {
      PlainHop(encoded, start, size);
      SubstrGrows(encoded, more, start, size);
    } else {
      WrappedHop(encoded, start, size);
    }
    hide Word;
  }

  /** One turn takes more of a longer buffer exactly where the sum wraps. */
  lemma HopChanges(encoded: Bytes, more: Bytes, cursor: nat)
    requires cursor <= |encoded| <= MAX_STRING && more != [] && HopFrom(encoded, cursor).HopTo?
    ensures var hop, later := HopFrom(encoded, cursor), HopFrom(encoded + more, cursor);
      && later.HopTo? && later.cursor == hop.cursor
      && if FrontOf(encoded[cursor..], false).Chunk? then later == hop else |hop.data| < |later.data|
  {
    hide SizeOn, FindCrlf, ChunkHop, FrontOf;
    SameSlices(encoded, more, cursor);
    FindCrlfStable(encoded[cursor..], more);
    HopGrows(encoded, more, cursor);
    var end: nat := FindCrlf(encoded[cursor..]).value;
    var size: nat := SizeOn(encoded[cursor..cursor + end]).value;
    SizeFits(encoded[cursor..cursor + end]);
    FrontAtLine(encoded, cursor, end, size);
    ChunkHopChanges(encoded, more, cursor + end + 2, size);
    if cursor + end + 2 + size + 2 <= SIZE_MAX {
      PlainHop(encoded, cursor + end + 2, size);
    }
  }

  lemma {:induction false} WalkChanges(encoded: Bytes, more: Bytes, cursor: nat, turns: nat)
    requires cursor <= |encoded| <= MAX_STRING && more != [] && Walk(encoded, cursor, turns).halt.AtLast?
    ensures var walked, later := Walk(encoded, cursor, turns), Walk(encoded + more, cursor, turns);
            if WrapsFrom(encoded, cursor) then |walked.body| < |later.body| else later == walked
    decreases turns
  {
    hide HopFrom, WrapsFrom, FrontOf;
    HopFollows(encoded, cursor);
    HopGrows(encoded, more, cursor);
    if HopFrom(encoded, cursor).HopTo? {
      var next := HopFrom(encoded, cursor).cursor;
      HopChanges(encoded, more, cursor);
      if FrontOf(encoded[cursor..], false).Chunk? {
        WalkChanges(encoded, more, next, turns - 1);
      } else {
        WalkGrows(encoded, more, next, turns - 1);
      }
    }
  }

  lemma AfterLastStable(encoded: Bytes, more: Bytes, at: nat, body: Bytes, later: Bytes)
    requires at <= |encoded| && AfterLast(encoded, at, body).DecodeComplete?
    ensures AfterLast(encoded + more, at, later) == DecodeComplete(later, AfterLast(encoded, at, body).consumed)
  {
    hide Trailers;
    SameSlices(encoded, more, at);
    TrailersStable(encoded[at..], more, false);
  }

  /** A decoded body stays decoded, with the same octets consumed, when more input arrives. It is
      the same body if and only if no sum wraps; otherwise the new octets are in it. */
  lemma DecodingStable(encoded: Bytes, more: Bytes)
    requires Decoding(encoded).DecodeComplete?
    ensures var decoded, later := Decoding(encoded), Decoding(encoded + more);
      && later.DecodeComplete? && later.consumed == decoded.consumed && |decoded.body| <= |later.body|
      && (|encoded| <= MAX_STRING && more != [] ==>
            if Wraps(encoded) then |decoded.body| < |later.body| else later == decoded)
  {
    hide Walk, WrapsFrom, AfterLast;
    var turns := |encoded| + 1;
    WalkGrows(encoded, more, 0, turns);
    MoreTurns(encoded + more, 0, turns, |encoded + more| + 1);
    var walked, later := Walk(encoded, 0, turns), Walk(encoded + more, 0, turns);
    AfterLastStable(encoded, more, walked.halt.cursor, walked.body, later.body);
    if |encoded| <= MAX_STRING && more != [] {
      WalkChanges(encoded, more, 0, turns);
    }
  }

  lemma SizeLineThere(encoded: Bytes, cursor: nat)
    requires cursor <= |encoded| && WrapsFrom(encoded, cursor)
    ensures FindCrlf(encoded[cursor..]).Some?
    ensures SizeOn(encoded[cursor..cursor + FindCrlf(encoded[cursor..]).value]).Some?
  {
    hide SizeOn, FindCrlf;
  }

  /** A sum that wraps still does with more input. */
  lemma {:induction false} WrapsStay(encoded: Bytes, more: Bytes, cursor: nat)
    requires cursor <= |encoded| && WrapsFrom(encoded, cursor)
    ensures WrapsFrom(encoded + more, cursor)
    decreases |encoded| - cursor
  {
    hide SizeOn, FindCrlf, WrapsFrom;
    SizeLineThere(encoded, cursor);
    SameSlices(encoded, more, cursor);
    FindCrlfStable(encoded[cursor..], more);
    var end: nat := FindCrlf(encoded[cursor..]).value;
    var start, size: nat := cursor + end + 2, SizeOn(encoded[cursor..cursor + end]).value;
    WrapsAtLine(encoded, cursor, end, size);
    WrapsAtLine(encoded + more, cursor, end, size);
    if start + size + 2 <= SIZE_MAX {
      SameSlices(encoded, more, start + size);
      WrapsStay(encoded, more, start + size + 2);
    }
  }

  // ----- the two decoders agree

  lemma TrailersStillToCome(encoded: Bytes, at: nat, body: Bytes)
    requires at <= |encoded| && AfterLast(encoded, at, body).DecodeIncomplete?
    ensures exists more :: AfterLast(encoded + more, at, body).DecodeComplete?
  {
    hide Trailers;
    TrailersNeverMalformed(encoded[at..]);
    TrailersCanEnd(encoded[at..]);
    var more, rest :| Trailers(encoded[at..] + more, false) == Complete([], rest);
    SameSlices(encoded, more, at);
    assert AfterLast(encoded + more, at, body).DecodeComplete?;
  }

  lemma LaterDecoding(encoded: Bytes, more: Bytes)
    requires Walk(encoded, 0, |encoded| + 1).halt.AtLast?
    ensures var walked := Walk(encoded, 0, |encoded| + 1); var later := Walk(encoded + more, 0, |encoded| + 1);
      && (Decoding(encoded + more).DecodeComplete?
          <==> AfterLast(encoded + more, walked.halt.cursor, walked.body).DecodeComplete?)
      && (Decoding(encoded + more).DecodeComplete? ==> Decoding(encoded + more).body == later.body)
  {
    hide Walk, Trailers;
    WalkGrows(encoded, more, 0, |encoded| + 1);
    MoreTurns(encoded + more, 0, |encoded| + 1, |encoded + more| + 1);
  }

  /** The decoder for upstream responses finds the body that the framer's decoder finds, throws
      and hangs on the same octets, and finds none where that one refuses. A body that it finds
      before the trailers have arrived is the one that the framer's decoder will find when they
      have if and only if no sum wraps. */
  lemma UpstreamAgrees(encoded: Bytes)
    ensures var upstream := UpstreamDecoding(encoded);
      match Decoding(encoded)
      case DecodeComplete(body, _) => upstream == UpstreamBody(body)
      case DecodeMalformed => upstream == NoBody
      case DecodeThrows => upstream == UpstreamThrows
      case DecodeHangs => upstream == UpstreamHangs
      case DecodeIncomplete =>
        upstream == NoBody
        || (upstream.UpstreamBody?
            && (exists more :: Decoding(encoded + more).DecodeComplete?)
            && (|encoded| <= MAX_STRING ==>
                  forall more :: Decoding(encoded + more).DecodeComplete? ==>
                    (Decoding(encoded + more).body == upstream.body <==> !Wraps(encoded))))
  {
    hide Walk, WrapsFrom, AfterLast;
    var walked := Walk(encoded, 0, |encoded| + 1);
    if walked.halt.AtLast? && Decoding(encoded).DecodeIncomplete? {
      TrailersStillToCome(encoded, walked.halt.cursor, walked.body);
      var rest :| AfterLast(encoded + rest, walked.halt.cursor, walked.body).DecodeComplete?;
      LaterDecoding(encoded, rest);
      forall more | Decoding(encoded + more).DecodeComplete? && |encoded| <= MAX_STRING
        ensures Decoding(encoded + more).body == walked.body <==> !Wraps(encoded)
      {
        assert more == [] ==> encoded + more == encoded;
        LaterDecoding(encoded, more);
        WalkChanges(encoded, more, 0, |encoded| + 1);
      }
    }
  }

  /** Both decoders undo `encode_chunked_body`, for every list of chunks and whatever follows. */
  lemma DecodingUndoesEncoding(chunks: seq<Bytes>, suffix: Bytes)
    requires Countable(chunks) && |Encoded(chunks) + suffix| <= MAX_STRING
    ensures var encoded := Encoded(chunks) + suffix;
      && Decoding(encoded) == DecodeComplete(Concat(chunks), |Encoded(chunks)|)
      && UpstreamDecoding(encoded) == UpstreamBody(Concat(chunks))
  {
    hide Chunks, Encoded, Decoding, UpstreamDecoding, WrapsFrom;
    var encoded := Encoded(chunks) + suffix;
    EncodeUndone(chunks, suffix);
    Unwrapped(encoded);
    UnwrappedDecoding(encoded);
    UpstreamAgrees(encoded);
  }

  // ----- a sum that wraps

  function SizeLineOf(size: nat): Bytes {
    Digits(size, Hexadecimal) + CRLF
  }

  /** A turn on the line of a size. */
  lemma SizeLineHop(front: Bytes, size: nat, tail: Bytes)
    requires 0 < size <= SIZE_MAX
    ensures var encoded, start := front + SizeLineOf(size) + tail, |front + SizeLineOf(size)|;
      && 0 <= start - 2 && encoded[start - 2..start] == CRLF && encoded[start..] == tail
      && HopFrom(encoded, |front|) == ChunkHop(encoded, start, size)
      && (start + size + 2 > SIZE_MAX && size < SIZE_MAX ==> WrapsFrom(encoded, |front|))
  {
    hide Digits, SizeOn, FindCrlf, HopFrom, WrapsFrom, LineEnd, ChunkHop;
    var line, encoded := Digits(size, Hexadecimal), front + SizeLineOf(size) + tail;
    SizeLineReadBack(size, tail);
    assert encoded[|front|..] == line + CRLF + tail;
    FoundByStrict(line + CRLF + tail, |line|);
    assert encoded[|front|..|front| + |line|] == line;
    WrapsAtLine(encoded, |front|, |line|, size);
    HopAtLine(encoded, |front|, |line|, size);
  }

  /** The line of the size that takes the cursor back to the end of that same line. */
  function BackLine(): Bytes {
    SizeLineOf(SIZE_MAX - 1)
  }

  lemma BackLineHop(tail: Bytes)
    requires |BackLine() + tail| <= MAX_STRING
    ensures WrapsFrom(BackLine() + tail, 0)
    ensures HopFrom(BackLine() + tail, 0) == HopTo(tail, |BackLine()|)
  {
    hide SizeLineOf, HopFrom, WrapsFrom, ChunkHop;
    SizeLineHop([], SIZE_MAX - 1, tail);
    assert [] + BackLine() == BackLine();
    WrappedHop(BackLine() + tail, |BackLine()|, SIZE_MAX - 1);
  }

  lemma FoundByStrict(s: Bytes, end: nat)
    requires LineEnd(s, true) == LineAt(end)
    ensures FindCrlf(s) == Some(end)
  {
    hide FindCrlf;
  }

  /** It makes the decoder take everything behind it for the chunk, and read on at the same octets:
      a message behind it is found, with the wrong body, although the chunk has just begun; and
      what is behind that message is in the body as well. */
  lemma WrapReadsTwice(chunks: seq<Bytes>, suffix: Bytes)
    requires Countable(chunks) && |BackLine() + (Encoded(chunks) + suffix)| <= MAX_STRING
    ensures var tail := Encoded(chunks) + suffix; var encoded := BackLine() + tail;
      && Wraps(encoded) && Chunks(encoded, false).Incomplete?
      && Decoding(encoded) == DecodeComplete(tail + Concat(chunks), |BackLine() + Encoded(chunks)|)
  {
    hide BackLine, Encoded, HopFrom, WrapsFrom, Chunks, Trailers;
    var tail := Encoded(chunks) + suffix;
    var encoded, start := BackLine() + tail, |BackLine()|;
    BackLineHop(tail);
    assert encoded[0..] == encoded && encoded[start..] == tail;
    WrappedIsIncomplete(encoded, 0);
    EncodeUndone(chunks, suffix);
    if WrapsFrom(encoded, start) {
      WrappedIsIncomplete(encoded, start);
    }
    WalkMeans(encoded, start, |encoded|);
    var walked := Walk(encoded, start, |encoded|);
    TrailersNeverMalformed(encoded[walked.halt.cursor..]);
    assert walked.body + [] == walked.body;
  }

  /** A sum that wraps need not show: the same line by itself leaves the decoder waiting, as it
      should be. */
  lemma WrapCanWait()
    ensures Wraps(BackLine()) && Decoding(BackLine()) == DecodeIncomplete && Chunks(BackLine(), false).Incomplete?
  {
    var encoded, start := BackLine(), |BackLine()|;
    SizeInHex(SIZE_MAX - 1);
    hide BackLine, HopFrom, WrapsFrom, Chunks;
    assert encoded + [] == encoded && encoded[0..] == encoded;
    BackLineHop([]);
    WrappedIsIncomplete(encoded, 0);
    NothingThere(encoded, start);
  }

  lemma NothingThere(encoded: Bytes, turns: nat)
    requires turns > 0
    ensures Walk(encoded, |encoded|, turns) == Walked(Short, [])
  {
    assert encoded[|encoded|..] == [];
  }

  /** Other sizes make `substr` throw, whatever follows. */
  lemma WrapThrows(tail: Bytes)
    requires |SizeLineOf(SIZE_MAX - 18) + tail| <= MAX_STRING
    ensures Decoding(SizeLineOf(SIZE_MAX - 18) + tail) == DecodeThrows
  {
    hide HopFrom, WrapsFrom, ChunkHop, Digits;
    SizeInHex(SIZE_MAX - 18);
    SizeLineHop([], SIZE_MAX - 18, tail);
    assert [] + SizeLineOf(SIZE_MAX - 18) == SizeLineOf(SIZE_MAX - 18);
    WrappedHop(SizeLineOf(SIZE_MAX - 18) + tail, 18, SIZE_MAX - 18);
  }

  /** A chunk of one octet. */
  function OneChunk(octet: Byte): Bytes {
    SizeLineOf(1) + ([octet] + CRLF)
  }

  lemma {:induction false} RoundAndRound(encoded: Bytes, cursor: nat, data: Bytes, turns: nat)
    requires cursor <= |encoded| && HopFrom(encoded, cursor) == HopTo(data, cursor)
    ensures Walk(encoded, cursor, turns).halt == Never
    decreases turns
  {
    hide HopFrom;
    if turns > 0 {
      RoundAndRound(encoded, cursor, data, turns - 1);
    }
  }

  lemma OneChunkIs(octet: Byte)
    ensures |OneChunk(octet)| == 6 && OneChunk(octet)[3] == octet && OneChunk(octet)[4..6] == CRLF
    ensures SizeLineOf(1) + ([octet] + CRLF) == OneChunk(octet) && |SizeLineOf(1)| == 3
  {
    assert Digits(1, Hexadecimal) == [49];
  }

  lemma FirstChunkHop(octet: Byte, tail: Bytes)
    ensures HopFrom(OneChunk(octet) + tail, 0) == HopTo([octet], 6)
  {
    hide HopFrom, WrapsFrom, ChunkHop, SizeLineOf, OneChunk;
    OneChunkIs(octet);
    var encoded := OneChunk(octet) + tail;
    assert [] + SizeLineOf(1) + ([octet] + CRLF + tail) == encoded;
    SizeLineHop([], 1, [octet] + CRLF + tail);
    PlainHop(encoded, 3, 1);
    assert encoded[3..4] == [octet] && encoded[4..6] == CRLF;
  }

  lemma SecondChunkHop(octet: Byte, tail: Bytes)
    requires |OneChunk(octet) + SizeLineOf(SIZE_MAX - 19) + tail| <= MAX_STRING
    ensures HopFrom(OneChunk(octet) + SizeLineOf(SIZE_MAX - 19) + tail, 6) == HopTo(tail, 6)
  {
    SizeInHex(SIZE_MAX - 19);
    assert |SizeLineOf(SIZE_MAX - 19)| == 18;
    hide HopFrom, WrapsFrom, ChunkHop, SizeLineOf, OneChunk, Digits;
    OneChunkIs(octet);
    var encoded := OneChunk(octet) + SizeLineOf(SIZE_MAX - 19) + tail;
    SizeLineHop(OneChunk(octet), SIZE_MAX - 19, tail);
    WrappedHop(encoded, 24, SIZE_MAX - 19);
    assert encoded[4..6] == CRLF;
  }

  /** And behind a chunk there is a size that takes the cursor back to its own line, for good. */
  lemma WrapHangs(octet: Byte, tail: Bytes)
    requires |OneChunk(octet) + SizeLineOf(SIZE_MAX - 19) + tail| <= MAX_STRING
    ensures Decoding(OneChunk(octet) + SizeLineOf(SIZE_MAX - 19) + tail) == DecodeHangs
  {
    hide HopFrom, SizeLineOf, OneChunk;
    var encoded := OneChunk(octet) + SizeLineOf(SIZE_MAX - 19) + tail;
    OneChunkIs(octet);
    SecondChunkHop(octet, tail);
    RoundAndRound(encoded, 6, tail, |encoded|);
    FirstChunkHop(octet, SizeLineOf(SIZE_MAX - 19) + tail);
    assert OneChunk(octet) + (SizeLineOf(SIZE_MAX - 19) + tail) == encoded;
  }
}
