/** The client connection preface (section 3.4 of RFC 9113). */
module Http2Preface {
  import opened Octets
  import opened Http2Frame
  import opened Http2Session

  datatype Status = NotHttp2 | NeedMore | Accepted | Rejected

  datatype Verdict = Verdict(status: Status, output: Bytes, keepConnection: bool)

  /** The verdict, with what is left of the input buffer. */
  datatype Reading = Reading(verdict: Verdict, buffer: Bytes)

  function Preface(): (r: Bytes)
    ensures |r| == 24
  {
    Ascii("PRI * HTTP/2.0\r\n\r\nSM\r\n\r\n")
  }

  datatype Objection = TooLong | NoSettings | Disabled | RateLimited

  function ObjectionText(o: Objection): (text: string)
    ensures |text| < 100
  {
    match o
    case TooLong => "HTTP/2 preface exceeded Rimau request limit"
    case NoSettings => "Rimau expected an HTTP/2 SETTINGS frame after the preface"
    case Disabled => "HTTP/2 is disabled in Rimau SQLite config"
    case RateLimited => "Rimau HTTP/2 rate limit exceeded"
  }

  function ObjectionCode(o: Objection): U32 {
    match o
    case TooLong => ERROR_PROTOCOL
    case NoSettings => ERROR_PROTOCOL
    case Disabled => ERROR_HTTP_1_1_REQUIRED
    case RateLimited => ERROR_ENHANCE_YOUR_CALM
  }

  function Rejection(o: Objection): Verdict {
    Verdict(Rejected, FrameString(GoawayFrame(ObjectionCode(o), Ascii(ObjectionText(o)))), false)
  }

  const WAIT := Verdict(NeedMore, [], true)

  predicate IsOpeningSettings(parsed: ParseResult) {
    parsed.Parsed? && parsed.frame.kind == SETTINGS && parsed.frame.streamId == 0
  }

  /** What is decided from the preface and the SETTINGS frame after it. */
  function ReadPreface(buffer: Bytes, limit: nat, enabled: bool, allowed: bool): Reading {
    var shared := if |buffer| < 24 then |buffer| else 24;
    if buffer == [] || buffer[..shared] != Preface()[..shared] then Reading(Verdict(NotHttp2, [], true), buffer)
    else if |buffer| < 24 then Reading(WAIT, buffer)
    else if |buffer| > limit then Reading(Rejection(TooLong), [])
    else
      var parsed := ParseFrame(buffer[24..], DEFAULT_MAX_FRAME_SIZE);
      if parsed.Incomplete? then Reading(WAIT, buffer)
      else if !IsOpeningSettings(parsed)
      then Reading(Rejection(NoSettings), [])
      else
        Reading(if !enabled then Rejection(Disabled)
                else if !allowed then Rejection(RateLimited)
                else Verdict(Accepted, FrameString(SettingsFrame(false)) + FrameString(SettingsFrame(true)), true),
                buffer[24 + parsed.consumed..])
  }

  /** The verdict does not depend on how much of the input has arrived: one that is reached
      early is the one that is reached late, and what comes after the opening is kept. */
  lemma PrefaceStable(early: Bytes, more: Bytes, limit: nat, enabled: bool, allowed: bool)
    requires early != [] && |early + more| <= limit
    requires !ReadPreface(early, limit, enabled, allowed).verdict.status.NeedMore?
    ensures var first, last := ReadPreface(early, limit, enabled, allowed),
        ReadPreface(early + more, limit, enabled, allowed);
      && last.verdict == first.verdict
      && (first.verdict.keepConnection ==> last.buffer == first.buffer + more)
  {
    hide ObjectionText, ParseFrame, Preface;
    var all := early + more;
    if |early| >= 24 {
      assert all[..24] == early[..24];
      assert all[24..] == early[24..] + more;
      if early[..24] == Preface()[..24] {
        var parsed := ParseFrame(early[24..], DEFAULT_MAX_FRAME_SIZE);
        ParseStable(early[24..], more, DEFAULT_MAX_FRAME_SIZE);
        if parsed.Parsed? {
          assert all[24 + parsed.consumed..] == early[24 + parsed.consumed..] + more;
        }
      }
    } else {
      assert early[..|early|] == early;
      MismatchStays(early, more);
    }
  }

  lemma MismatchStays(early: Bytes, more: Bytes)
    requires |early| < 24 && early != Preface()[..|early|]
    ensures var shared := if |early + more| < 24 then |early + more| else 24;
            (early + more)[..shared] != Preface()[..shared]
  {
    var all := early + more;
    var shared := if |all| < 24 then |all| else 24;
    var i :| 0 <= i < |early| && early[i] != Preface()[i];
    assert all[..shared][i] == early[i] && Preface()[..shared][i] == Preface()[i];
  }

  /** An opening is accepted exactly when it is the preface and a valid SETTINGS frame, and
      HTTP/2 is enabled and allowed; the two SETTINGS frames of the answer can be read back. */
  lemma AcceptedExactly(buffer: Bytes, limit: nat, enabled: bool, allowed: bool)
    requires |buffer| <= limit
    ensures var r := ReadPreface(buffer, limit, enabled, allowed);
      && (r.verdict.status.Accepted? <==>
            && enabled && allowed
            && Preface() <= buffer
            && IsOpeningSettings(ParseFrame(buffer[24..], DEFAULT_MAX_FRAME_SIZE)))
      && (r.verdict.status.Accepted? ==> FramesIn(r.verdict.output) == [SettingsFrame(false), SettingsFrame(true)])
  {
    hide ParseFrame, FramesIn, Preface;
    var first, second := SettingsFrame(false), SettingsFrame(true);
    FramesInAfter(first, FrameWire(second));
    FramesInAfter(second, []);
    assert FramesIn([]) == [] by { NoFrames(); }
    assert FrameWire(second) + [] == FrameWire(second);
    assert Preface()[..24] == Preface();
  }

  lemma NoFrames()
    ensures FramesIn([]) == []
  {
  }
}
