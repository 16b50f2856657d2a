/** How a streamed chunked body is refused: with 413 exactly when its octets are more than the limit,
    however the network cuts it, and with 400 otherwise. */
module ChunkedLimits {
  import opened Octets
  import opened ChunkedBody
  import opened ChunkedGrammar
  import opened ChunkedStream

  /** The octets of the body that have been put together. */
  function Gathered(p: Progress): Bytes {
    match p case Going(st, _) => st.body case Finished(body, _) => body case Failed(_) => []
  }

  // ----- with and without a limit

  /** A limit makes no difference, or it is exceeded by what the larger limit lets through. */
  predicate LimitShows(limited: Progress, free: Progress, before: nat, maxBody: nat) {
    && (before <= maxBody && !limited.Failed? ==> |Gathered(limited)| <= maxBody)
    && (!free.Failed? ==> before <= |Gathered(free)|)
    && if limited == Failed(413) then !free.Failed? ==> |Gathered(free)| > maxBody else limited == free
  }

  lemma TurnShows(st: Stream, buffer: Bytes, maxBody: nat, larger: nat)
    requires Sound(st) && buffer != [] && maxBody <= larger && |st.body| <= maxBody
    ensures LimitShows(Turn(st, buffer, maxBody), Turn(st, buffer, larger), |st.body|, maxBody)
  {
    hide SizeOn;
  }

  lemma TurnGrows(st: Stream, buffer: Bytes, maxBody: nat)
    requires Sound(st) && buffer != []
    ensures var p := Turn(st, buffer, maxBody); !p.Failed? ==> |st.body| <= |Gathered(p)|
  {
    hide SizeOn;
  }

  lemma {:induction false} RunGrows(st: Stream, buffer: Bytes, maxBody: nat)
    requires Sound(st)
    ensures var p := Run(st, buffer, maxBody); !p.Failed? ==> |st.body| <= |Gathered(p)|
    decreases |buffer|
  {
    hide Turn;
    if buffer != [] {
      TurnGrows(st, buffer, maxBody);
      var next := Turn(st, buffer, maxBody);
      if next.Going? {
        TurnIsSound(st, buffer, maxBody);
        RunGrows(next.stream, next.buffer, maxBody);
      }
    }
  }

  lemma {:induction false} RunShows(st: Stream, buffer: Bytes, maxBody: nat, larger: nat)
    requires Sound(st) && maxBody <= larger && |st.body| <= maxBody
    ensures LimitShows(Run(st, buffer, maxBody), Run(st, buffer, larger), |st.body|, maxBody)
    decreases |buffer|
  {
    hide Turn;
    if buffer != [] {
      TurnShows(st, buffer, maxBody, larger);
      var limited, free := Turn(st, buffer, maxBody), Turn(st, buffer, larger);
      if free.Going? {
        TurnIsSound(st, buffer, larger);
        if limited == free {
          RunShows(free.stream, free.buffer, maxBody, larger);
        } else {
          RunGrows(free.stream, free.buffer, larger);
        }
      }
    }
  }

  lemma {:induction false} FeedGrows(st: Stream, pieces: seq<Bytes>, maxBody: nat)
    requires Sound(st)
    ensures var p := Feed(st, pieces, maxBody); !p.Failed? ==> |st.body| <= |Gathered(p)|
    decreases |pieces|
  {
    hide Run;
    if pieces != [] {
      RunGrows(st, pieces[0], maxBody);
      var next := Run(st, pieces[0], maxBody);
      if next.Going? {
        FeedGrows(next.stream, pieces[1..], maxBody);
      }
    }
  }

  lemma {:induction false} FeedShows(st: Stream, pieces: seq<Bytes>, maxBody: nat, larger: nat)
    requires Sound(st) && maxBody <= larger && |st.body| <= maxBody
    ensures LimitShows(Feed(st, pieces, maxBody), Feed(st, pieces, larger), |st.body|, maxBody)
    decreases |pieces|
  {
    hide Run;
    if pieces != [] {
      RunShows(st, pieces[0], maxBody, larger);
      var limited, free := Run(st, pieces[0], maxBody), Run(st, pieces[0], larger);
      if free.Going? {
        if limited == free {
          FeedShows(free.stream, pieces[1..], maxBody, larger);
        } else {
          FeedGrows(free.stream, pieces[1..], larger);
        }
      }
    }
  }

  // ----- a limit that is as large as the input

  /** No more is put together than comes in; a refusal is then not about the limit. */
  predicate Unlimited(p: Progress, room: nat) {
    match p
    case Going(st, buffer) => |st.body| + |buffer| <= room
    case Finished(body, rest) => |body| <= room
    case Failed(status) => status == 400
  }

  lemma TurnUnlimited(st: Stream, buffer: Bytes, room: nat)
    requires Sound(st) && buffer != [] && |st.body| + |buffer| <= room
    ensures Unlimited(Turn(st, buffer, room), room)
  {
    hide SizeOn;
  }

  lemma {:induction false} RunUnlimited(st: Stream, buffer: Bytes, room: nat, spare: nat)
    requires Sound(st) && |st.body| + |buffer| + spare <= room
    ensures Unlimited(Run(st, buffer, room), room)
    ensures Run(st, buffer, room).Going? ==> |Run(st, buffer, room).stream.body| + spare <= room
    decreases |buffer|
  {
    hide Turn;
    if buffer != [] {
      TurnUnlimited(st, buffer, room);
      TurnSpare(st, buffer, room);
      var next := Turn(st, buffer, room);
      if next.Going? {
        TurnIsSound(st, buffer, room);
        RunUnlimited(next.stream, next.buffer, room, spare);
      }
    }
  }

  lemma TurnSpare(st: Stream, buffer: Bytes, room: nat)
    requires Sound(st) && buffer != []
    ensures var next := Turn(st, buffer, room);
            next.Going? ==> |next.stream.body| + |next.buffer| <= |st.body| + |buffer|
  {
    hide SizeOn;
  }

  lemma {:induction false} FeedUnlimited(st: Stream, pieces: seq<Bytes>, room: nat)
    requires Sound(st) && |st.body| + |Concat(pieces)| <= room
    ensures Feed(st, pieces, room).Failed? ==> Feed(st, pieces, room).status == 400
    decreases |pieces|
  {
    hide Run;
    if pieces != [] {
      RunUnlimited(st, pieces[0], room, |Concat(pieces[1..])|);
      var next := Run(st, pieces[0], room);
      if next.Going? {
        FeedUnlimited(next.stream, pieces[1..], room);
      }
    }
  }

  // ----- refusals

  /** What a limit does to any input in any reads: without one, the only refusal is 400; with one,
      the outcome is the same, or 413; and when the input itself is not refused, it is 413 exactly
      if more than the limit is put together. */
  lemma LimitExactly(pieces: seq<Bytes>, maxBody: nat, room: nat)
    requires |Concat(pieces)| <= room && maxBody <= room
    ensures var limited, free := Feed(START, pieces, maxBody), Feed(START, pieces, room);
      && (free.Failed? ==> free == Failed(400) && (limited == Failed(400) || limited == Failed(413)))
      && (!free.Failed? ==> limited == if |Gathered(free)| > maxBody then Failed(413) else free)
  {
    hide Feed;
    FeedShows(START, pieces, maxBody, room);
    FeedUnlimited(START, pieces, room);
  }

  /** A body that the grammar writes with clean lines, however it is cut: it is finished with its
      octets if they are within the limit, and refused with 413 if they are not. */
  lemma CleanBodyStreams(pieces: seq<Bytes>, body: Bytes, rest: Bytes, maxBody: nat)
    requires IsBody(Concat(pieces), body, rest, true)
    ensures Feed(START, pieces, maxBody) == if |body| > maxBody then Failed(413) else Finished(body, rest)
  {
    hide Feed, Chunks, IsBody;
    var s := Concat(pieces);
    CompleteExactly(s, body, rest, true);
    var room := |s| + |body| + maxBody;
    StrictInputFinishes(pieces, room);
    LimitExactly(pieces, maxBody, room);
  }
}
