/** Request bodies that arrive in pieces: the incremental chunked decoder, as transitions on a
    state, and what they make of a body however the network cuts it. */
module ChunkedStream {
  import opened Wrappers
  import opened Octets
  import opened ChunkedBody
  import opened ChunkedDecoding

  const MAX_LINE: nat := 8192

  datatype Phase = SizeLine | Data | DataCrlf | TrailerLine

  datatype Stream = Stream(phase: Phase, line: Bytes, remaining: nat, crlfSeen: nat, body: Bytes)

  const START := Stream(SizeLine, [], 0, 0, [])

  /** What holds between the turns of the loop. */
  predicate Sound(st: Stream) {
    && LF !in st.line
    && (st.phase == Data ==> st.remaining > 0 && st.line == [])
    && (st.phase == DataCrlf ==> st.crlfSeen < 2 && st.line == [])
  }

  /** After a turn, or after many: the state and what is left of the buffer, or the end. */
  datatype Progress = Going(stream: Stream, buffer: Bytes) | Finished(body: Bytes, rest: Bytes) | Failed(status: nat)

  // ----- one turn of the loop

  /** A line that is complete, without its line end. */
  function OnLine(st: Stream, line: Bytes, rest: Bytes): Progress {
    var next := st.(line := []);
    if st.phase == TrailerLine then
      if line == [] then Finished(st.body, rest)
      else if |line| > MAX_LINE then Failed(400)
      else Going(next, rest)
    else
      match SizeOn(line)
      case None => Failed(400)
      case Some(size) =>
        Going(if size == 0 then next.(phase := TrailerLine) else next.(phase := Data, remaining := size), rest)
  }

  function LineTurn(st: Stream, buffer: Bytes): Progress {
    match Find(buffer, LF)
    case None =>
      var line := st.line + buffer;
      if |line| > MAX_LINE then Failed(400) else Going(st.(line := line), [])
    case Some(i) => LineEnded(st, st.line + buffer[..i + 1], buffer[i + 1..])
  }

  /** A line up to its LF, which has to follow a CR. */
  function LineEnded(st: Stream, line: Bytes, rest: Bytes): Progress {
    if |line| < 2 || line[|line| - 2] != CR then Failed(400) else OnLine(st, line[..|line| - 2], rest)
  }

  function DataTurn(st: Stream, buffer: Bytes, maxBody: nat): Progress {
    var take := if st.remaining < |buffer| then st.remaining else |buffer|;
    if |st.body| + take > maxBody then Failed(413)
    else
      var next := st.(body := st.body + buffer[..take], remaining := st.remaining - take);
      Going(if next.remaining == 0 then next.(phase := DataCrlf, crlfSeen := 0) else next, buffer[take..])
  }

  function CrlfTurn(st: Stream, buffer: Bytes): Progress
    requires buffer != []
  {
    if buffer[0] != (if st.crlfSeen == 0 then CR else LF) then Failed(400)
    else
      var next := st.(crlfSeen := st.crlfSeen + 1);
      Going(if next.crlfSeen == 2 then next.(phase := SizeLine) else next, buffer[1..])
  }

  function Turn(st: Stream, buffer: Bytes, maxBody: nat): Progress
    requires buffer != []
  {
    match st.phase
    case SizeLine => LineTurn(st, buffer)
    case TrailerLine => LineTurn(st, buffer)
    case Data => DataTurn(st, buffer, maxBody)
    case DataCrlf => CrlfTurn(st, buffer)
  }

  lemma TurnIsSound(st: Stream, buffer: Bytes, maxBody: nat)
    requires Sound(st) && buffer != [] && Turn(st, buffer, maxBody).Going?
    ensures var next := Turn(st, buffer, maxBody); Sound(next.stream) && |next.buffer| < |buffer|
  {
    hide SizeOn;
  }

  /** The loop over one buffer. */
  function Run(st: Stream, buffer: Bytes, maxBody: nat): (r: Progress)
    requires Sound(st)
    ensures r.Going? ==> r.buffer == [] && Sound(r.stream)
    decreases |buffer|
  {
    if buffer == [] then Going(st, [])
    else
      var next := Turn(st, buffer, maxBody);
      if next.Going? then
        TurnIsSound(st, buffer, maxBody);
        Run(next.stream, next.buffer, maxBody)
      else next
  }

  /** One read after another, with what is left over when the body ends. */
  function Feed(st: Stream, pieces: seq<Bytes>, maxBody: nat): Progress
    requires Sound(st)
    decreases |pieces|
  {
    if pieces == [] then Going(st, [])
    else
      match Run(st, pieces[0], maxBody)
      case Going(next, _) => Feed(next, pieces[1..], maxBody)
      case Finished(body, rest) => Finished(body, rest + Concat(pieces[1..]))
      case Failed(status) => Failed(status)
  }

  // ----- what a state still expects

  function AfterData(size: nat, s: Bytes, strict: bool): Reading {
    if |s| < size + 2 then Incomplete
    else if s[size..size + 2] != CRLF then Malformed
    else Chunks(s[size + 2..], strict).Behind(s[..size])
  }

  function AfterCrlf(seen: nat, s: Bytes, strict: bool): Reading
    requires seen < 2
  {
    if |s| < 2 - seen then Incomplete
    else if s[..2 - seen] != CRLF[seen..] then Malformed
    else Chunks(s[2 - seen..], strict)
  }

  /** How the whole input pieces, when `s` is still to come. */
  function Meaning(st: Stream, s: Bytes, strict: bool): Reading
    requires Sound(st)
  {
    (match st.phase
     case SizeLine => Chunks(st.line + s, strict)
     case TrailerLine => Trailers(st.line + s, strict)
     case Data => AfterData(st.remaining, s, strict)
     case DataCrlf => AfterCrlf(st.crlfSeen, s, strict)).Behind(st.body)
  }

  /** No line of the buffer, joined to what is already there, is too long for a strict reader. */
  predicate LineFits(st: Stream, buffer: Bytes) {
    st.phase.SizeLine? || st.phase.TrailerLine? ==>
      Find(buffer, LF).Some? ==> |st.line| + Find(buffer, LF).value <= MAX_LINE
  }

  lemma NoEarlyCrlf(line: Bytes, buffer: Bytes, more: Bytes)
    requires LF !in line && Find(buffer, LF).Some?
    requires var i: nat := Find(buffer, LF).value; var text := line + buffer[..i + 1];
      |text| >= 2 && text[|text| - 2] == CR
    ensures var i: nat := Find(buffer, LF).value; var all := line + (buffer + more); var end: nat := |line| + i - 1;
      && FindCrlf(all) == Some(end)
      && all[..end] == (line + buffer[..i + 1])[..end]
      && LF !in all[..end]
      && all[end + 2..] == buffer[i + 1..] + more
  {
    hide Find, FindCrlf;
    LineFeedPlace(line, buffer, more);
    var i: nat := Find(buffer, LF).value;
    var all := line + (buffer + more);
    var text := line + buffer[..i + 1];
    var end: nat := |line| + i - 1;
    assert all[..end + 2] == text;
    assert all[end] == text[end] && all[end + 1] == LF;
    FindCrlfIs(all, end);
  }

  lemma AfterSizeLine(all: Bytes, end: nat, strict: bool)
    requires LineEnd(all, strict) == LineAt(end)
    ensures Chunks(all, strict) ==
            match SizeOn(all[..end])
            case None => Malformed
            case Some(size) =>
              if size == 0 then Trailers(all[end + 2..], strict) else AfterData(size, all[end + 2..], strict)
  {
    hide SizeOn, LineEnd, Trailers;
  }

  lemma AfterTrailerLine(all: Bytes, end: nat, strict: bool)
    requires LineEnd(all, strict) == LineAt(end)
    ensures Trailers(all, strict) == if end == 0 then Complete([], all[2..]) else Trailers(all[end + 2..], strict)
  {
    hide LineEnd;
  }

  /** What follows a complete line. */
  lemma LineEndsHere(st: Stream, all: Bytes, end: nat, rest: Bytes, more: Bytes, strict: bool)
    requires st.phase == SizeLine || st.phase == TrailerLine
    requires LineEnd(all, strict) == LineAt(end) && all[end + 2..] == rest + more
    ensures var next := OnLine(st, all[..end], rest);
      var reading := if st.phase == SizeLine then Chunks(all, strict) else Trailers(all, strict);
      && (next.Going? ==>
          Sound(next.stream) && reading.Behind(st.body) == Meaning(next.stream, next.buffer + more, strict))
      && (next.Finished? ==> reading.Behind(st.body) == Complete(next.body, next.rest + more))
  {
    hide SizeOn, LineEnd, Chunks, Trailers, AfterData, AfterCrlf;
    assert [] + (rest + more) == rest + more;
    assert st.body + [] == st.body;
    if st.phase == SizeLine {
      AfterSizeLine(all, end, strict);
    } else {
      AfterTrailerLine(all, end, strict);
    }
  }

  /** The decoders' view of a state between lines. */
  lemma LineMeaning(st: Stream, s: Bytes, strict: bool)
    requires Sound(st) && (st.phase == SizeLine || st.phase == TrailerLine)
    ensures var all := st.line + s;
            Meaning(st, s, strict)
            == (if st.phase == SizeLine then Chunks(all, strict) else Trailers(all, strict)).Behind(st.body)
  {
    hide Chunks, Trailers, AfterData, AfterCrlf;
  }

  lemma UnfinishedLineKeepsMeaning(st: Stream, buffer: Bytes, more: Bytes, strict: bool)
    requires Sound(st) && (st.phase == SizeLine || st.phase == TrailerLine) && Find(buffer, LF).None?
    ensures var next := st.(line := st.line + buffer);
            Sound(next) && Meaning(st, buffer + more, strict) == Meaning(next, more, strict)
  {
    hide Meaning, Find, Chunks, Trailers;
    var next := st.(line := st.line + buffer);
    LineMeaning(st, buffer + more, strict);
    LineMeaning(next, more, strict);
    assert st.line + (buffer + more) == next.line + more;
  }

  lemma FinishedLineKeepsMeaning(st: Stream, buffer: Bytes, more: Bytes, strict: bool)
    requires Sound(st) && (st.phase == SizeLine || st.phase == TrailerLine) && Find(buffer, LF).Some?
    requires strict ==> LineFits(st, buffer)
    ensures var next := LineTurn(st, buffer);
      && (next.Going? ==>
          Sound(next.stream) && Meaning(st, buffer + more, strict) == Meaning(next.stream, next.buffer + more, strict))
      && (next.Finished? ==> Meaning(st, buffer + more, strict) == Complete(next.body, next.rest + more))
  {
    hide OnLine, Find, FindCrlf, Meaning, Chunks, Trailers;
    if !LineTurn(st, buffer).Failed? {
      NoEarlyCrlf(st.line, buffer, more);
      var i: nat := Find(buffer, LF).value;
      var all := st.line + (buffer + more);
      var end: nat := |st.line| + i - 1;
      LineMeaning(st, buffer + more, strict);
      LineEndsHere(st, all, end, buffer[i + 1..], more, strict);
    }
  }

  lemma LineKeepsMeaning(st: Stream, buffer: Bytes, more: Bytes, strict: bool)
    requires Sound(st) && (st.phase == SizeLine || st.phase == TrailerLine) && buffer != []
    requires strict ==> LineFits(st, buffer)
    ensures var next := LineTurn(st, buffer);
      && (next.Going? ==>
          Sound(next.stream) && Meaning(st, buffer + more, strict) == Meaning(next.stream, next.buffer + more, strict))
      && (next.Finished? ==> Meaning(st, buffer + more, strict) == Complete(next.body, next.rest + more))
  {
    hide LineEnded, Meaning, Find, Sound, LineFits;
    if Find(buffer, LF).None? {
      UnfinishedLineKeepsMeaning(st, buffer, more, strict);
      assert [] + more == more;
    } else {
      FinishedLineKeepsMeaning(st, buffer, more, strict);
    }
  }

  lemma AfterDataInSteps(size: nat, taken: nat, s: Bytes, body: Bytes, strict: bool)
    requires taken <= size && taken <= |s|
    ensures AfterData(size, s, strict).Behind(body)
            == AfterData(size - taken, s[taken..], strict).Behind(body + s[..taken])
  {
    hide Chunks;
    if |s| >= size + 2 {
      var t := s[taken..];
      assert t[size - taken..size - taken + 2] == s[size..size + 2];
      assert t[size - taken + 2..] == s[size + 2..];
      assert s[..size] == s[..taken] + t[..size - taken];
      var r := Chunks(s[size + 2..], strict);
      BehindTwice(r, s[..taken], t[..size - taken]);
      BehindTwice(r.Behind(t[..size - taken]), body, s[..taken]);
    }
  }

  lemma AfterNoData(s: Bytes, strict: bool)
    ensures AfterData(0, s, strict) == AfterCrlf(0, s, strict)
  {
    hide Chunks;
    assert CRLF[0..] == CRLF;
    if |s| >= 2 {
      assert s[0..2] == s[..2] && s[..0] == [];
      BehindNothing(Chunks(s[2..], strict));
    }
  }

  lemma DataKeepsMeaning(st: Stream, buffer: Bytes, more: Bytes, maxBody: nat, strict: bool)
    requires Sound(st) && st.phase == Data && buffer != []
    ensures var next := DataTurn(st, buffer, maxBody);
      && !next.Finished?
      && (next.Going? ==>
          Sound(next.stream) && Meaning(st, buffer + more, strict) == Meaning(next.stream, next.buffer + more, strict))
  {
    hide AfterData, AfterCrlf, Chunks;
    var take := if st.remaining < |buffer| then st.remaining else |buffer|;
    var s := buffer + more;
    AfterDataInSteps(st.remaining, take, s, st.body, strict);
    assert s[..take] == buffer[..take] && s[take..] == buffer[take..] + more;
    AfterNoData(s[take..], strict);
  }

  lemma AfterCrlfInSteps(s: Bytes, strict: bool)
    requires s != []
    ensures s[0] == CR ==> AfterCrlf(0, s, strict) == AfterCrlf(1, s[1..], strict)
    ensures s[0] == LF ==> AfterCrlf(1, s, strict) == Chunks(s[1..], strict)
  {
    hide Chunks;
    assert CRLF[0..] == CRLF && CRLF[1..] == [LF];
    assert s[..1] == [s[0]];
    if |s| >= 2 {
      assert s[..2] == [s[0], s[1]] && s[1..][..1] == [s[1]] && s[1..][1..] == s[2..];
    }
  }

  lemma CrlfKeepsMeaning(st: Stream, buffer: Bytes, more: Bytes, strict: bool)
    requires Sound(st) && st.phase == DataCrlf && buffer != []
    ensures var next := CrlfTurn(st, buffer);
      && !next.Finished?
      && (next.Going? ==>
          Sound(next.stream) && Meaning(st, buffer + more, strict) == Meaning(next.stream, next.buffer + more, strict))
  {
    hide Chunks, AfterCrlf;
    var s := buffer + more;
    AfterCrlfInSteps(s, strict);
    assert s[1..] == buffer[1..] + more;
    assert [] + s[1..] == s[1..];
  }

  lemma TurnKeepsMeaning(st: Stream, buffer: Bytes, more: Bytes, maxBody: nat, strict: bool)
    requires Sound(st) && buffer != []
    requires strict ==> LineFits(st, buffer)
    ensures var next := Turn(st, buffer, maxBody);
      && (next.Going? ==>
          Sound(next.stream) && Meaning(st, buffer + more, strict) == Meaning(next.stream, next.buffer + more, strict))
      && (next.Finished? ==> Meaning(st, buffer + more, strict) == Complete(next.body, next.rest + more))
  {
    hide LineTurn, DataTurn, CrlfTurn, Meaning, LineFits;
    match st.phase
    case SizeLine => LineKeepsMeaning(st, buffer, more, strict);
    case TrailerLine => LineKeepsMeaning(st, buffer, more, strict);
    case Data => DataKeepsMeaning(st, buffer, more, maxBody, strict);
    case DataCrlf => CrlfKeepsMeaning(st, buffer, more, strict);
  }

  // ----- whatever the streaming decoder finishes, the framer's decoder reads in the same way

  lemma {:induction false} RunKeepsMeaning(st: Stream, buffer: Bytes, more: Bytes, maxBody: nat)
    requires Sound(st)
    ensures match Run(st, buffer, maxBody)
            case Going(next, _) => Meaning(st, buffer + more, false) == Meaning(next, more, false)
            case Finished(body, rest) => Meaning(st, buffer + more, false) == Complete(body, rest + more)
            case Failed(_) => true
    decreases |buffer|
  {
    hide Turn, Meaning;
    if buffer == [] {
      assert [] + more == more;
    } else {
      TurnKeepsMeaning(st, buffer, more, maxBody, false);
      var next := Turn(st, buffer, maxBody);
      if next.Going? {
        TurnIsSound(st, buffer, maxBody);
        RunKeepsMeaning(next.stream, next.buffer, more, maxBody);
      }
    }
  }

  lemma {:induction false} FinishedMeans(st: Stream, pieces: seq<Bytes>, maxBody: nat)
    requires Sound(st) && Feed(st, pieces, maxBody).Finished?
    ensures var end := Feed(st, pieces, maxBody); Meaning(st, Concat(pieces), false) == Complete(end.body, end.rest)
    decreases |pieces|
  {
    hide Run, Meaning;
    RunKeepsMeaning(st, pieces[0], Concat(pieces[1..]), maxBody);
    if Run(st, pieces[0], maxBody).Going? {
      FinishedMeans(Run(st, pieces[0], maxBody).stream, pieces[1..], maxBody);
    }
  }

  lemma StartMeans(s: Bytes, strict: bool)
    ensures Meaning(START, s, strict) == Chunks(s, strict)
  {
    hide Chunks;
    assert [] + s == s;
    BehindNothing(Chunks(s, strict));
  }

  /** The incremental decoder refines the one on a whole buffer: however the input is cut, if it
      finishes, then `decode_chunked_body` is complete on the same octets, with the same body
      and the same number of octets consumed, as long as they fit in a string. */
  lemma StreamingRefinesBatch(pieces: seq<Bytes>, maxBody: nat)
    requires Feed(START, pieces, maxBody).Finished?
    ensures var s, end := Concat(pieces), Feed(START, pieces, maxBody);
      && Chunks(s, false) == Complete(end.body, end.rest)
      && |end.rest| <= |s|
      && (|s| <= MAX_STRING ==> Decoding(s) == DecodeComplete(end.body, |s| - |end.rest|))
      && s[|s| - |end.rest|..] == end.rest
  {
    hide Feed, Chunks, Decoding, WrapsFrom;
    FinishedMeans(START, pieces, maxBody);
    var s := Concat(pieces);
    StartMeans(s, false);
    ChunksLeaveSuffix(s, false);
    if |s| <= MAX_STRING {
      Unwrapped(s);
      UnwrappedDecoding(s);
    }
  }

  // ----- what a strict reader accepts, the streaming decoder finishes

  /** A strict reader has no use for a line that is too long. */
  lemma StrictLineFits(st: Stream, buffer: Bytes, more: Bytes)
    requires Sound(st) && buffer != [] && Meaning(st, buffer + more, true).Complete?
    ensures LineFits(st, buffer)
  {
    hide SizeOn, AfterData, AfterCrlf;
    if (st.phase == SizeLine || st.phase == TrailerLine) && Find(buffer, LF).Some? {
      var all := st.line + (buffer + more);
      var i: nat := Find(buffer, LF).value;
      var end: nat := LineEnd(all, true).end;
      LineFeedPlace(st.line, buffer, more);
      assert all[|st.line| + i] == LF;
      if end > |st.line| + i {
        assert all[..end][|st.line| + i] == LF;
      }
    }
  }

  lemma LineFeedPlace(line: Bytes, buffer: Bytes, more: Bytes)
    requires LF !in line && Find(buffer, LF).Some?
    ensures var at: nat := |line| + Find(buffer, LF).value; var all := line + (buffer + more);
      at < |all| && all[at] == LF && forall j :: 0 <= j < at ==> all[j] != LF
  {
    var i: nat := Find(buffer, LF).value;
    assert forall j :: 0 <= j < i ==> buffer[j] in buffer[..i];
  }

  /** A line turn does not fail when a strict reader accepts the input. */
  lemma StrictLineSucceeds(st: Stream, buffer: Bytes, more: Bytes)
    requires Sound(st) && (st.phase == SizeLine || st.phase == TrailerLine) && buffer != []
    requires Meaning(st, buffer + more, true).Complete?
    ensures !LineTurn(st, buffer).Failed?
  {
    hide SizeOn, FindCrlf, OnLine, Trailers, Chunks, AfterData, AfterCrlf;
    var all := st.line + (buffer + more);
    StrictLineExists(st, all);
    var end: nat := LineEnd(all, true).end;
    assert all[end + 1] == LF && all[end] == CR;
    if Find(buffer, LF).Some? {
      LineFeedPlace(st.line, buffer, more);
      var i: nat := Find(buffer, LF).value;
      SamePlace(all, end, |st.line| + i);
      var text := st.line + buffer[..i + 1];
      assert text == all[..end + 2];
      assert text[..|text| - 2] == all[..end];
      StrictLineAccepted(st, all, end, buffer[i + 1..]);
    } else {
      assert forall j :: 0 <= j < |st.line| + |buffer| ==> all[j] != LF;
    }
  }

  lemma SamePlace(all: Bytes, end: nat, at: nat)
    requires end + 1 < |all| && all[end + 1] == LF && LF !in all[..end] && all[end] == CR
    requires at < |all| && all[at] == LF && forall j :: 0 <= j < at ==> all[j] != LF
    ensures at == end + 1
  {
    assert forall j :: 0 <= j < end ==> all[j] == all[..end][j];
  }

  lemma StrictLineExists(st: Stream, all: Bytes)
    requires st.phase == SizeLine ==> Chunks(all, true).Complete?
    requires st.phase != SizeLine ==> Trailers(all, true).Complete?
    ensures LineEnd(all, true).LineAt?
    ensures var end := LineEnd(all, true).end; CrlfAt(all, end) && LF !in all[..end] && end <= MAX_CLEAN_LINE
  {
    hide SizeOn;
  }

  lemma StrictLineAccepted(st: Stream, all: Bytes, end: nat, rest: Bytes)
    requires st.phase == SizeLine || st.phase == TrailerLine
    requires st.phase == SizeLine ==> Chunks(all, true).Complete?
    requires LineEnd(all, true) == LineAt(end) && end <= MAX_CLEAN_LINE
    ensures !OnLine(st, all[..end], rest).Failed?
  {
    hide SizeOn, LineEnd, Trailers;
  }

  lemma StrictTurnSucceeds(st: Stream, buffer: Bytes, more: Bytes, maxBody: nat)
    requires Sound(st) && buffer != []
    requires Meaning(st, buffer + more, true).Complete? && |Meaning(st, buffer + more, true).body| <= maxBody
    ensures !Turn(st, buffer, maxBody).Failed?
  {
    hide LineTurn, Chunks, Trailers;
    match st.phase
    case SizeLine => StrictLineSucceeds(st, buffer, more);
    case TrailerLine => StrictLineSucceeds(st, buffer, more);
    case Data =>
    case DataCrlf =>
      assert (buffer + more)[..2 - st.crlfSeen][0] == buffer[0];
      assert CRLF[st.crlfSeen..][0] == CRLF[st.crlfSeen];
  }

  lemma {:induction false} StrictRun(st: Stream, buffer: Bytes, more: Bytes, maxBody: nat)
    requires Sound(st)
    requires Meaning(st, buffer + more, true).Complete? && |Meaning(st, buffer + more, true).body| <= maxBody
    ensures match Run(st, buffer, maxBody)
            case Going(next, _) => Meaning(st, buffer + more, true) == Meaning(next, more, true)
            case Finished(body, rest) => Meaning(st, buffer + more, true) == Complete(body, rest + more)
            case Failed(_) => false
    decreases |buffer|
  {
    hide Turn, Meaning, LineFits;
    if buffer == [] {
      assert [] + more == more;
    } else {
      StrictLineFits(st, buffer, more);
      StrictTurnSucceeds(st, buffer, more, maxBody);
      TurnKeepsMeaning(st, buffer, more, maxBody, true);
      var next := Turn(st, buffer, maxBody);
      if next.Going? {
        TurnIsSound(st, buffer, maxBody);
        StrictRun(next.stream, next.buffer, more, maxBody);
      }
    }
  }

  /** A state always has something still to come. */
  lemma NothingYet(st: Stream, strict: bool)
    requires Sound(st)
    ensures Meaning(st, [], strict).Incomplete?
  {
    hide SizeOn;
    assert st.line + [] == st.line;
    assert forall j :: 0 <= j < |st.line| ==> st.line[j] in st.line;
  }

  lemma {:induction false} StrictFeed(st: Stream, pieces: seq<Bytes>, maxBody: nat)
    requires Sound(st)
    requires Meaning(st, Concat(pieces), true).Complete? && |Meaning(st, Concat(pieces), true).body| <= maxBody
    ensures var r := Meaning(st, Concat(pieces), true); Feed(st, pieces, maxBody) == Finished(r.body, r.rest)
    decreases |pieces|
  {
    hide Run, Meaning;
    if pieces == [] {
      NothingYet(st, true);
      assert false;
    } else {
      StrictRun(st, pieces[0], Concat(pieces[1..]), maxBody);
      if Run(st, pieces[0], maxBody).Going? {
        StrictFeed(Run(st, pieces[0], maxBody).stream, pieces[1..], maxBody);
      }
    }
  }

  /** Every cutting of an input that a strict reader accepts, with a body within the limit, is
      finished with that body, and leaves what is behind it. */
  lemma StrictInputFinishes(pieces: seq<Bytes>, maxBody: nat)
    requires var r := Chunks(Concat(pieces), true); r.Complete? && |r.body| <= maxBody
    ensures var r := Chunks(Concat(pieces), true); Feed(START, pieces, maxBody) == Finished(r.body, r.rest)
  {
    hide Feed, Chunks, Meaning;
    StartMeans(Concat(pieces), true);
    StrictFeed(START, pieces, maxBody);
  }

  // ----- octet by octet

  function Bytewise(s: Bytes): (r: seq<Bytes>)
    ensures |r| == |s|
  {
    if s == [] then [] else [[s[0]]] + Bytewise(s[1..])
  }

  lemma {:induction false} BytewiseIsCutting(s: Bytes)
    ensures Concat(Bytewise(s)) == s
  {
    if s != [] {
      BytewiseIsCutting(s[1..]);
      assert Bytewise(s)[1..] == Bytewise(s[1..]);
      assert [s[0]] + s[1..] == s;
    }
  }

  /** Limits that a state fed octet by octet keeps. */
  predicate Limited(st: Stream, maxBody: nat) {
    |st.line| <= MAX_LINE && |st.body| <= maxBody
  }

  lemma OneByte(st: Stream, b: Byte, maxBody: nat)
    requires Sound(st) && Limited(st, maxBody)
    ensures LineFits(st, [b])
    ensures var next := Turn(st, [b], maxBody);
      && Run(st, [b], maxBody) == next
      && (next.Going? ==> next.buffer == [] && Limited(next.stream, maxBody))
      && (next.Finished? ==> |next.body| <= maxBody)
  {
    hide SizeOn;
    assert Find([b], LF).Some? ==> Find([b], LF).value == 0;
    var next := Turn(st, [b], maxBody);
    if next.Going? {
      TurnIsSound(st, [b], maxBody);
      assert Run(next.stream, [], maxBody) == Going(next.stream, []);
    }
  }

  lemma {:induction false} BytewiseIsStrict(st: Stream, s: Bytes, maxBody: nat)
    requires Sound(st) && Limited(st, maxBody) && Feed(st, Bytewise(s), maxBody).Finished?
    ensures Meaning(st, s, true).Complete? && |Meaning(st, s, true).body| <= maxBody
    decreases |s|
  {
    hide Turn, Meaning, Run, LineFits, Limited;
    assert Bytewise(s)[0] == [s[0]] && Bytewise(s)[1..] == Bytewise(s[1..]);
    OneByte(st, s[0], maxBody);
    TurnKeepsMeaning(st, [s[0]], s[1..], maxBody, true);
    assert [s[0]] + s[1..] == s && [] + s[1..] == s[1..];
    var next := Run(st, [s[0]], maxBody);
    if next.Going? {
      BytewiseIsStrict(next.stream, s[1..], maxBody);
    }
  }

  /** The condition is exact: the octets are finished however they are cut if and only if a
      strict reader accepts them and the body is within the limit, and arriving one by one is
      the hardest cutting. */
  lemma FinishesExactly(s: Bytes, maxBody: nat)
    ensures Feed(START, Bytewise(s), maxBody).Finished? <==>
        Chunks(s, true).Complete? && |Chunks(s, true).body| <= maxBody
    ensures (forall pieces :: Concat(pieces) == s ==> Feed(START, pieces, maxBody).Finished?)
            <==> Chunks(s, true).Complete? && |Chunks(s, true).body| <= maxBody
  {
    hide Feed, Chunks, Meaning;
    BytewiseIsCutting(s);
    StartMeans(s, true);
    if Feed(START, Bytewise(s), maxBody).Finished? {
      BytewiseIsStrict(START, s, maxBody);
    }
    if Chunks(s, true).Complete? && |Chunks(s, true).body| <= maxBody {
      forall pieces | Concat(pieces) == s
        ensures Feed(START, pieces, maxBody).Finished?
      {
        StrictInputFinishes(pieces, maxBody);
      }
    }
  }

  /** So streaming undoes `encode_chunked_body`: for every list of chunks, whatever follows, and
      every cutting. */
  lemma StreamingUndoesEncoding(chunks: seq<Bytes>, suffix: Bytes, pieces: seq<Bytes>, maxBody: nat)
    requires Countable(chunks) && |Concat(chunks)| <= maxBody
    requires Concat(pieces) == Encoded(chunks) + suffix
    ensures Feed(START, pieces, maxBody) == Finished(Concat(chunks), suffix)
  {
    hide Feed, Chunks, Encoded;
    EncodeUndone(chunks, suffix);
    StrictInputFinishes(pieces, maxBody);
  }

  /** A size line with a bare LF in it is trimmed and taken by the framer's decoder, and
      refused by the incremental one. */
  lemma BareLineFeedDiffers(maxBody: nat)
    ensures var s: Bytes := [48, LF] + CRLF + CRLF;
      Chunks(s, false) == Complete([], []) && Feed(START, [s], maxBody) == Failed(400)
  {
    var s: Bytes := [48, LF] + CRLF + CRLF;
    FindCrlfIs(s, 2);
    assert s[..2] == [48, LF];
    FindIs(s, LF, 1);
    ZeroWithLineFeed();
    assert s[4..] == CRLF;
    FindCrlfIs(CRLF, 0);
    assert Trailers(CRLF, false) == Complete([], []);
  }

  lemma ZeroWithLineFeed()
    ensures SizeOn([48, LF]) == Some(0)
  {
    var line: Bytes, zero: Bytes := [48, LF], [48];
    assert SEMICOLON !in line;
    assert TrimLeft(line) == line && line[..1] == zero;
    assert TrimRight(zero) == zero && TrimRight(line) == TrimRight(zero);
    assert zero[..0] == [];
    assert PositionalValue(zero, Hexadecimal) == 0;
  }

  // ----- one read is the easiest cutting

  lemma DataInTwo(st: Stream, a: Bytes, b: Bytes, maxBody: nat)
    requires Sound(st) && st.phase == Data && a != [] && b != [] && DataTurn(st, a, maxBody).Going?
    ensures var next := DataTurn(st, a, maxBody);
            DataTurn(st, a + b, maxBody) ==
            if next.stream.phase == Data then DataTurn(next.stream, b, maxBody) else Going(next.stream, next.buffer + b)
    ensures DataTurn(st, a, maxBody).stream.phase == Data ==> DataTurn(st, a, maxBody).buffer == []
  {
    if st.remaining > |a| {
      var take := if st.remaining < |a + b| then st.remaining else |a + b|;
      assert (a + b)[..take] == a + b[..take - |a|] && (a + b)[take..] == b[take - |a|..];
      assert a[..|a|] == a;
      assert st.body + (a + b[..take - |a|]) == st.body + a + b[..take - |a|];
    } else {
      assert (a + b)[..st.remaining] == a[..st.remaining] && (a + b)[st.remaining..] == a[st.remaining..] + b;
    }
  }

  lemma FindInFront(a: Bytes, b: Bytes)
    requires Find(a, LF).Some?
    ensures Find(a + b, LF) == Find(a, LF)
  {
    hide Find;
    var i: nat := Find(a, LF).value;
    assert (a + b)[..i] == a[..i];
    FindIs(a + b, LF, i);
  }

  lemma FindBehind(a: Bytes, b: Bytes)
    requires Find(a, LF).None?
    ensures match Find(b, LF)
            case Some(i) => Find(a + b, LF) == Some(|a| + i)
            case None => Find(a + b, LF) == None
  {
    hide Find;
    if Find(b, LF).Some? {
      var i: nat := Find(b, LF).value;
      assert (a + b)[..|a| + i] == a + b[..i];
      FindIs(a + b, LF, |a| + i);
    }
  }

  /** The line that a buffer completes is the same with more octets behind it. */
  lemma LineWithMore(st: Stream, a: Bytes, b: Bytes)
    requires Find(a, LF).Some?
    ensures match LineTurn(st, a)
            case Going(next, left) => LineTurn(st, a + b) == Going(next, left + b)
            case Finished(body, left) => LineTurn(st, a + b) == Finished(body, left + b)
            case Failed(status) => LineTurn(st, a + b) == Failed(status)
  {
    hide LineEnded, Find;
    FindInFront(a, b);
    var i: nat := Find(a, LF).value;
    FoundInside(a, i);
    SlicesInFront(a, b, i + 1);
    AnyRest(st, st.line + a[..i + 1], a[i + 1..], a[i + 1..] + b);
  }

  lemma SlicesInFront(a: Bytes, b: Bytes, n: nat)
    requires n <= |a|
    ensures (a + b)[..n] == a[..n] && (a + b)[n..] == a[n..] + b
  {
  }

  lemma LineSoughtInTwo(st: Stream, a: Bytes, b: Bytes)
    requires Find(a, LF).None?
    ensures LineTurn(st, a + b) == LineTurn(st.(line := st.line + a), b)
  {
    hide LineEnded, Find;
    FindBehind(a, b);
    assert st.line + (a + b) == st.line + a + b;
    if Find(b, LF).Some? {
      var i: nat := Find(b, LF).value;
      FoundInside(b, i);
      SlicesBehind(st.line, a, b, i + 1);
      SameLineLater(st, st.(line := st.line + a), st.line + a + b[..i + 1], b[i + 1..]);
    }
  }

  lemma SlicesBehind(line: Bytes, a: Bytes, b: Bytes, n: nat)
    requires n <= |b|
    ensures line + (a + b)[..|a| + n] == line + a + b[..n] && (a + b)[|a| + n..] == b[n..]
  {
    assert (a + b)[..|a| + n] == a + b[..n];
  }

  lemma FoundInside(s: Bytes, i: nat)
    requires Find(s, LF) == Some(i)
    ensures i < |s|
  {
  }

  /** What a line means does not depend on what follows. */
  lemma AnyRest(st: Stream, line: Bytes, rest: Bytes, other: Bytes)
    ensures match LineEnded(st, line, rest)
            case Going(next, left) => left == rest && LineEnded(st, line, other) == Going(next, other)
            case Finished(body, left) => left == rest && LineEnded(st, line, other) == Finished(body, other)
            case Failed(status) => LineEnded(st, line, other) == Failed(status)
  {
    hide SizeOn;
  }

  lemma SameLineLater(a: Stream, b: Stream, line: Bytes, rest: Bytes)
    requires b == a.(line := b.line)
    ensures LineEnded(a, line, rest) == LineEnded(b, line, rest)
  {
    hide SizeOn;
  }

  /** A turn that uses up the buffer can as well be taken with the next octets there. */
  lemma {:induction false} RunInTwo(st: Stream, a: Bytes, b: Bytes, maxBody: nat)
    requires Sound(st) && Run(st, a, maxBody).Going?
    ensures Run(st, a + b, maxBody) == Run(Run(st, a, maxBody).stream, b, maxBody)
    decreases |a|
  {
    hide LineTurn, DataTurn, CrlfTurn, Sound;
    if a == [] {
      assert a + b == b;
    } else if b == [] {
      assert a + b == a;
    } else {
      TurnIsSound(st, a, maxBody);
      var next := Turn(st, a, maxBody);
      TurnInTwo(st, a, b, maxBody);
      if Turn(st, a + b, maxBody) == Going(next.stream, next.buffer + b) {
        RunInTwo(next.stream, next.buffer, b, maxBody);
      }
    }
  }

  lemma TurnInTwo(st: Stream, a: Bytes, b: Bytes, maxBody: nat)
    requires Sound(st) && a != [] && b != [] && Turn(st, a, maxBody).Going?
    ensures var next := Turn(st, a, maxBody);
      || Turn(st, a + b, maxBody) == Going(next.stream, next.buffer + b)
      || (next.buffer == [] && Turn(st, a + b, maxBody) == Turn(next.stream, b, maxBody))
  {
    match st.phase
    case Data => DataInTwo(st, a, b, maxBody);
    case DataCrlf => assert (a + b)[1..] == a[1..] + b;
    case _ =>
      if Find(a, LF).Some? {
        hide LineTurn;
        LineWithMore(st, a, b);
      } else {
        LineSoughtInTwo(st, a, b);
        hide LineEnded, Find;
      }
  }

  /** What any cutting comes to, one read of all the octets comes to as well. The reverse can
      fail: a long line is refused only where a read ends inside it. */
  lemma {:induction false} OneReadIsEasiest(st: Stream, pieces: seq<Bytes>, maxBody: nat)
    requires Sound(st) && !Feed(st, pieces, maxBody).Failed?
    ensures Run(st, Concat(pieces), maxBody) == Feed(st, pieces, maxBody)
    decreases |pieces|
  {
    hide Run;
    if pieces == [] {
      EmptyRun(st, maxBody);
    } else {
      var first := Run(st, pieces[0], maxBody);
      var rest := Concat(pieces[1..]);
      if first.Going? {
        RunInTwo(st, pieces[0], rest, maxBody);
        OneReadIsEasiest(first.stream, pieces[1..], maxBody);
      } else {
        FinishedWithMore(st, pieces[0], rest, maxBody);
      }
    }
  }

  lemma EmptyRun(st: Stream, maxBody: nat)
    requires Sound(st)
    ensures Run(st, [], maxBody) == Going(st, [])
  {
  }

  lemma {:induction false} FinishedWithMore(st: Stream, a: Bytes, b: Bytes, maxBody: nat)
    requires Sound(st) && Run(st, a, maxBody).Finished?
    ensures Run(st, a + b, maxBody) == Finished(Run(st, a, maxBody).body, Run(st, a, maxBody).rest + b)
    decreases |a|
  {
    hide LineTurn, DataTurn, CrlfTurn, Sound;
    var next := Turn(st, a, maxBody);
    if b == [] {
      assert a + b == a && Run(st, a, maxBody).rest + b == Run(st, a, maxBody).rest;
    } else if next.Going? {
      TurnIsSound(st, a, maxBody);
      TurnInTwo(st, a, b, maxBody);
      EmptyRun(next.stream, maxBody);
      if Turn(st, a + b, maxBody) == Going(next.stream, next.buffer + b) {
        FinishedWithMore(next.stream, next.buffer, b, maxBody);
      }
    } else {
      TurnEndsWithMore(st, a, b, maxBody);
    }
  }

  lemma TurnEndsWithMore(st: Stream, a: Bytes, b: Bytes, maxBody: nat)
    requires Sound(st) && a != [] && Turn(st, a, maxBody).Finished?
    ensures Turn(st, a + b, maxBody) == Finished(Turn(st, a, maxBody).body, Turn(st, a, maxBody).rest + b)
  {
    assert st.phase == SizeLine || st.phase == TrailerLine;
    assert Find(a, LF).Some?;
    hide LineTurn;
    LineWithMore(st, a, b);
  }

  // ----- which inputs one read finishes

  /** Trailer lines without a bare LF, none longer than the decoder takes. */
  predicate UnbrokenTrailers(s: Bytes)
    decreases |s|
  {
    match FindCrlf(s)
    case None => true
    case Some(end) => LF !in s[..end] && end <= MAX_LINE && (end > 0 ==> UnbrokenTrailers(s[end + 2..]))
  }

  /** Size lines without a bare LF, of any length, and such trailer lines. */
  predicate UnbrokenChunks(s: Bytes)
    decreases |s|
  {
    match FindCrlf(s)
    case None => true
    case Some(end) =>
      LF !in s[..end] &&
      match FrontOf(s, false)
      case Last(after) => UnbrokenTrailers(after)
      case Chunk(_, after) => UnbrokenChunks(after)
      case _ => true
  }

  /** The first LF follows a CR exactly when both are the first line end. */
  lemma FirstLineFeed(s: Bytes, i: nat)
    requires Find(s, LF) == Some(i)
    ensures i < |s|
    ensures i > 0 && s[i - 1] == CR <==> i > 0 && FindCrlf(s) == Some(i - 1)
    ensures FindCrlf(s).Some? ==> i <= FindCrlf(s).value + 1
  {
    hide Find, FindCrlf;
    assert forall j :: 0 <= j < i ==> s[j] == s[..i][j];
    if i > 0 && s[i - 1] == CR {
      FindCrlfIs(s, i - 1);
    }
  }

  /** A line turn on a fresh line: it succeeds on the whole line, or fails at a bare LF. */
  lemma FreshLine(st: Stream, s: Bytes)
    requires st.line == [] && s != []
    ensures match FindCrlf(s)
            case None => LineTurn(st, s).Failed? || (LineTurn(st, s).Going? && LineTurn(st, s).buffer == [])
            case Some(end) =>
              LineTurn(st, s) == if LF in s[..end] then Failed(400) else OnLine(st, s[..end], s[end + 2..])
  {
    hide OnLine, Find, FindCrlf;
    if Find(s, LF).Some? {
      var i: nat := Find(s, LF).value;
      FirstLineFeed(s, i);
      assert [] + s[..i + 1] == s[..i + 1];
      if i > 0 && s[i - 1] == CR {
        assert s[..i + 1][..i - 1] == s[..i - 1];
        assert LF !in s[..i - 1] by { assert forall j :: 0 <= j < i - 1 ==> s[..i - 1][j] == s[..i][j]; }
      } else if FindCrlf(s).Some? {
        assert s[..FindCrlf(s).value][i] == LF;
      }
    }
  }

  lemma FirstTurn(st: Stream, s: Bytes, maxBody: nat)
    requires Sound(st) && (st.phase == SizeLine || st.phase == TrailerLine) && s != []
    ensures var next := LineTurn(st, s);
            if next.Going? then Sound(next.stream) && Run(st, s, maxBody) == Run(next.stream, next.buffer, maxBody)
            else Run(st, s, maxBody) == next
  {
    hide LineTurn;
    if LineTurn(st, s).Going? {
      TurnIsSound(st, s, maxBody);
    }
  }

  lemma TrailersByLine(s: Bytes)
    requires FindCrlf(s).Some?
    ensures var end: nat := FindCrlf(s).value;
      && Trailers(s, false) == (if end == 0 then Complete([], s[2..]) else Trailers(s[end + 2..], false))
      && (UnbrokenTrailers(s) <==>
            LF !in s[..end] && end <= MAX_LINE && (end > 0 ==> UnbrokenTrailers(s[end + 2..])))
  {
    hide FindCrlf, Trailers;
    TrailersAt(s, 0);
    assert s[0..] == s;
  }

  lemma NoTrailersYet(s: Bytes)
    requires FindCrlf(s).None?
    ensures Trailers(s, false).Incomplete?
  {
  }

  lemma {:induction false} OneReadTrailers(st: Stream, s: Bytes, maxBody: nat)
    requires st.phase == TrailerLine && st.line == []
    ensures Run(st, s, maxBody).Finished? <==> Trailers(s, false).Complete? && UnbrokenTrailers(s)
    decreases |s|
  {
    hide SizeOn, LineTurn, FindCrlf, Run, Trailers, UnbrokenTrailers;
    EmptyRun(st, maxBody);
    if FindCrlf(s).None? {
      NoTrailersYet(s);
    } else {
      TrailersByLine(s);
    }
    if s != [] {
      FreshLine(st, s);
      FirstTurn(st, s, maxBody);
      if LineTurn(st, s).Going? {
        EmptyRun(LineTurn(st, s).stream, maxBody);
        if FindCrlf(s).Some? {
          OneReadTrailers(st, s[FindCrlf(s).value + 2..], maxBody);
        }
      }
    }
  }

  lemma OneReadCrlf(st: Stream, s: Bytes, maxBody: nat)
    requires st.phase == DataCrlf && st.line == [] && st.crlfSeen == 0
    ensures Run(st, s, maxBody).Finished? <==>
            |s| >= 2 && s[..2] == CRLF && Run(st.(phase := SizeLine, crlfSeen := 2), s[2..], maxBody).Finished?
  {
    hide LineTurn;
    if |s| >= 2 {
      assert s[..2] == [s[0], s[1]] && s[1..][1..] == s[2..];
    } else if |s| == 1 {
      assert s[1..] == [];
    }
  }

  lemma OneReadData(st: Stream, s: Bytes, maxBody: nat)
    requires st.phase == Data && st.line == [] && st.remaining > 0
    ensures var n := st.remaining;
            Run(st, s, maxBody).Finished? <==>
            && |s| >= n + 2 && s[n..n + 2] == CRLF && |st.body| + n <= maxBody
            && Run(Stream(SizeLine, [], 0, 2, st.body + s[..n]), s[n + 2..], maxBody).Finished?
  {
    hide LineTurn, CrlfTurn;
    var n := st.remaining;
    if s != [] {
      var next := DataTurn(st, s, maxBody);
      if next.Going? {
        TurnIsSound(st, s, maxBody);
        if |s| >= n {
          OneReadCrlf(next.stream, s[n..], maxBody);
          if |s| >= n + 2 {
            assert s[n..][..2] == s[n..n + 2] && s[n..][2..] == s[n + 2..];
          }
        } else {
          assert s[|s|..] == [];
          EmptyRun(next.stream, maxBody);
        }
      }
    }
  }

  /** A chunked body, one size line further. */
  lemma ChunksByLine(s: Bytes)
    requires FindCrlf(s).Some?
    ensures var end: nat := FindCrlf(s).value; var after := s[end + 2..];
      match SizeOn(s[..end])
      case None => Chunks(s, false).Malformed?
      case Some(size) =>
        if size == 0 then
          && Chunks(s, false) == Trailers(after, false)
          && (UnbrokenChunks(s) <==> LF !in s[..end] && UnbrokenTrailers(after))
        else if |after| >= size + 2 && after[size..size + 2] == CRLF then
          && Chunks(s, false) == Chunks(after[size + 2..], false).Behind(after[..size])
          && (UnbrokenChunks(s) <==> LF !in s[..end] && UnbrokenChunks(after[size + 2..]))
        else
          !Chunks(s, false).Complete?
    ensures LF in s[..FindCrlf(s).value] ==> !UnbrokenChunks(s)
  {
    hide SizeOn, FindCrlf, Trailers, UnbrokenTrailers;
  }

  /** The run of a buffer, one size line further. */
  lemma RunByLine(st: Stream, s: Bytes, maxBody: nat)
    requires st.phase == SizeLine && st.line == [] && FindCrlf(s).Some?
    ensures var end: nat := FindCrlf(s).value; var after := s[end + 2..];
      Run(st, s, maxBody).Finished? <==>
      && LF !in s[..end]
      && match SizeOn(s[..end])
         case None => false
         case Some(size) =>
           if size == 0 then Trailers(after, false).Complete? && UnbrokenTrailers(after)
           else
             && |after| >= size + 2 && after[size..size + 2] == CRLF && |st.body| + size <= maxBody
             && Run(Stream(SizeLine, [], 0, 2, st.body + after[..size]), after[size + 2..], maxBody).Finished?
  {
    hide SizeOn, LineTurn, FindCrlf, Run, Trailers, UnbrokenTrailers;
    FreshLine(st, s);
    FirstTurn(st, s, maxBody);
    if LineTurn(st, s).Going? {
      var end: nat := FindCrlf(s).value;
      var after := s[end + 2..];
      if SizeOn(s[..end]) == Some(0) {
        OneReadTrailers(LineTurn(st, s).stream, after, maxBody);
      } else {
        OneReadData(LineTurn(st, s).stream, after, maxBody);
      }
    }
  }

  lemma NoLineYet(st: Stream, s: Bytes, maxBody: nat)
    requires st.phase == SizeLine && st.line == [] && FindCrlf(s).None?
    ensures !Run(st, s, maxBody).Finished? && Chunks(s, false).Incomplete?
  {
    hide SizeOn, LineTurn;
    EmptyRun(st, maxBody);
    if s != [] {
      FreshLine(st, s);
      FirstTurn(st, s, maxBody);
      if LineTurn(st, s).Going? {
        EmptyRun(LineTurn(st, s).stream, maxBody);
      }
    }
  }

  lemma {:induction false} OneReadChunks(st: Stream, s: Bytes, maxBody: nat)
    requires st.phase == SizeLine && st.line == [] && |st.body| <= maxBody
    ensures Run(st, s, maxBody).Finished? <==>
            Chunks(s, false).Complete? && UnbrokenChunks(s) && |st.body| + |Chunks(s, false).body| <= maxBody
    decreases |s|
  {
    hide SizeOn, FindCrlf, Run, Trailers, UnbrokenTrailers, Chunks, UnbrokenChunks;
    if FindCrlf(s).None? {
      NoLineYet(st, s, maxBody);
    } else {
      RunByLine(st, s, maxBody);
      ChunksByLine(s);
      var end: nat := FindCrlf(s).value;
      var after := s[end + 2..];
      if SizeOn(s[..end]) == Some(0) {
        TrailersNeverMalformed(after);
      } else if SizeOn(s[..end]).Some? {
        var size: nat := SizeOn(s[..end]).value;
        if |after| >= size + 2 && |st.body| + size <= maxBody {
          OneReadChunks(Stream(SizeLine, [], 0, 2, st.body + after[..size]), after[size + 2..], maxBody);
        }
      }
    }
  }

  /** Some cutting of an input is finished if and only if one read of it is: its chunked body is
      complete and within the limit, and its lines are unbroken. */
  lemma SomeCuttingFinishes(s: Bytes, maxBody: nat)
    ensures (exists pieces :: Concat(pieces) == s && Feed(START, pieces, maxBody).Finished?)
            <==> Chunks(s, false).Complete? && UnbrokenChunks(s) && |Chunks(s, false).body| <= maxBody
  {
    hide Feed, Run, Chunks, UnbrokenChunks;
    OneReadChunks(START, s, maxBody);
    if Run(START, s, maxBody).Finished? {
      OnePiece(s, maxBody);
      ConcatOne(s);
    }
    forall pieces | Concat(pieces) == s && Feed(START, pieces, maxBody).Finished?
      ensures Run(START, s, maxBody).Finished?
    {
      OneReadIsEasiest(START, pieces, maxBody);
    }
  }

  lemma OnePiece(s: Bytes, maxBody: nat)
    requires Run(START, s, maxBody).Finished?
    ensures Feed(START, [s], maxBody).Finished?
  {
  }
}
