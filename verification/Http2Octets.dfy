/** HTTP/2 frames and the connection preface, octet by octet (sections 3.4, 4.1 and 6 of RFC 9113). */
module Http2Octets {
  import opened Wrappers
  import opened Octets
  import opened HpackTable
  import opened HpackIndexing
  import opened Http2Frame
  import opened Http2Session
  import opened Http2Preface

  // ----- which octets are a frame

  /** Four octets, most significant first. */
  function Number(a: Byte, b: Byte, c: Byte, d: Byte): nat {
    0x100_0000 * (a as int) + 0x1_0000 * (b as int) + 0x100 * (c as int) + d
  }

  /** The rules for a kind of frame: DATA, HEADERS, PRIORITY, RST_STREAM, PUSH_PROMISE and CONTINUATION
      are for a stream, SETTINGS, PING and GOAWAY are not, and some payloads have their lengths. */
  predicate KindRule(f: Frame) {
    && (f.kind in {0, 1, 2, 3, 5, 9} ==> f.streamId != 0)
    && (f.kind in {4, 6, 7} ==> f.streamId == 0)
    && (f.kind == 3 ==> |f.payload| == 4)
    && (f.kind == 4 ==> |f.payload| % 6 == 0 && (f.flags % 2 == 1 ==> |f.payload| == 0))
    && (f.kind == 6 ==> |f.payload| == 8)
    && (f.kind == 7 ==> |f.payload| >= 8)
    && (f.kind == 8 ==>
          && |f.payload| == 4
          && Number(f.payload[0] % 128, f.payload[1], f.payload[2], f.payload[3]) != 0)
  }

  /** Nine octets and as many as the first three say: length, kind, flags, and a stream id whose first
      bit does not count. */
  predicate StartsWithFrame(s: Bytes, f: Frame, maxFrameSize: nat) {
    && |s| >= 9 + |f.payload| && |f.payload| <= maxFrameSize
    && Number(0, s[0], s[1], s[2]) == |f.payload| && s[3] == f.kind && s[4] == f.flags
    && Number(s[5] % 128, s[6], s[7], s[8]) == f.streamId
    && s[9..9 + |f.payload|] == f.payload
  }

  lemma KindsExactly(f: Frame, maxFrameSize: nat)
    requires |f.payload| <= maxFrameSize <= 0xFF_FFFF
    ensures Violation(f, maxFrameSize).None? <==> KindRule(f)
  {
  }

  /** A frame is found at the front of some octets if and only if they start with its octets and it
      follows the rules. */
  lemma FrameExactly(s: Bytes, f: Frame, n: nat, maxFrameSize: nat)
    requires maxFrameSize <= 0xFF_FFFF
    ensures ParseFrame(s, maxFrameSize) == Parsed(f, n) <==>
            n == 9 + |f.payload| && StartsWithFrame(s, f, maxFrameSize) && KindRule(f)
  {
    hide Violation, KindRule;
    if |f.payload| <= maxFrameSize {
      KindsExactly(f, maxFrameSize);
    }
    if |s| >= 9 {
      var id := s[5..9];
      assert id[0] == s[5] && id[1] == s[6] && id[2] == s[7] && id[3] == s[8];
    }
  }

  /** More octets are waited for if and only if the nine, or the payload that they announce, are not
      all there, and the payload is not too long. */
  lemma WaitsExactly(s: Bytes, maxFrameSize: nat)
    requires maxFrameSize <= 0xFF_FFFF
    ensures ParseFrame(s, maxFrameSize) == Incomplete <==>
      |s| < 9 || (Number(0, s[0], s[1], s[2]) <= maxFrameSize && |s| < 9 + Number(0, s[0], s[1], s[2]))
  {
    hide Violation;
  }

  // ----- settings

  /** Setting `k` of a payload is its octets from 6 k on: two for the identifier, four for the value. */
  lemma {:induction false} SettingsExactly(payload: Bytes, k: nat)
    requires |payload| % 6 == 0 && 6 * k < |payload|
    ensures 6 * k + 5 < |payload| && k < |ParseSettings(payload)| == |payload| / 6
    ensures var at := 6 * k;
      ParseSettings(payload)[k] == Setting(0x100 * (payload[at] as int) + payload[at + 1],
          Number(payload[at + 2], payload[at + 3], payload[at + 4], payload[at + 5]))
    decreases k
  {
    var rest := payload[6..];
    if k == 0 {
      var value := payload[2..6];
      assert value[0] == payload[2] && value[1] == payload[3] && value[2] == payload[4] && value[3] == payload[5];
    } else {
      SettingsExactly(rest, k - 1);
      var at := 6 * (k - 1);
      assert rest[at] == payload[at + 6] && rest[at + 1] == payload[at + 7] && rest[at + 2] == payload[at + 8];
      assert rest[at + 3] == payload[at + 9] && rest[at + 4] == payload[at + 10] && rest[at + 5] == payload[at + 11];
    }
  }

  /** The smallest table size among some settings, if it is below `size`. */
  function Smallest(settings: seq<Setting>, size: nat): nat {
    if settings == [] then size
    else
      var smaller := settings[0].identifier == 1 && settings[0].value < size;
      Smallest(settings[1..], if smaller then settings[0].value else size)
  }

  lemma {:induction false} RoomToSpare(entries: seq<HeaderField>, room: nat, more: nat)
    requires room <= more
    ensures Fit(Fit(entries, room), more) == Fit(entries, room)
    decreases |entries|
  {
    if entries != [] && EntrySize(entries[0]) <= room {
      RoomToSpare(entries[1..], room - EntrySize(entries[0]), more - EntrySize(entries[0]));
    }
  }

  /** The settings of a frame leave in the decoder's table what fits in the smallest size among them. */
  lemma {:induction false} SmallestSizeFits(entries: seq<HeaderField>, room: nat, maxSize: nat, settings: seq<Setting>)
    ensures ApplySettings(Table(Fit(entries, room), maxSize), settings).entries
            == Fit(entries, Smallest(settings, room))
    decreases |settings|
  {
    if settings != [] {
      if settings[0].identifier == 1 {
        if settings[0].value <= room {
          FitTwice(entries, room, settings[0].value);
        } else {
          RoomToSpare(entries, room, settings[0].value);
        }
        var less := if settings[0].value < room then settings[0].value else room;
        SmallestSizeFits(entries, less, settings[0].value, settings[1..]);
      } else {
        SmallestSizeFits(entries, room, maxSize, settings[1..]);
      }
    }
  }

  // ----- the connection preface

  lemma PrefaceOctets()
    ensures Preface() == [80, 82, 73, 32, 42, 32, 72, 84, 84, 80, 47, 50, 46, 48, 13, 10, 13, 10]
                         + [83, 77, 13, 10, 13, 10]
  {
  }

  /** The connection is refused with a GOAWAY frame that carries this error code and is closed. */
  ghost predicate RefusedWith(r: Reading, code: U32) {
    && r.verdict.status.Rejected? && !r.verdict.keepConnection
    && exists text: Bytes :: |text| < 100
         && r.verdict.output == [0, 0, 8 + |text|, 7, 0, 0, 0, 0, 0, 0, 0, 0, 0, 0, 0, 0, code] + text
  }

  /** Two SETTINGS frames without settings, the second with ACK. */
  predicate Welcomed(r: Reading) {
    r.verdict == Verdict(Accepted, [0, 0, 0, 4, 0, 0, 0, 0, 0] + [0, 0, 0, 4, 1, 0, 0, 0, 0], true)
  }

  lemma RejectionIs(o: Objection, rest: Bytes)
    ensures RefusedWith(Reading(Rejection(o), rest),
                        match o case TooLong => 1 case NoSettings => 1 case Disabled => 13 case RateLimited => 11)
  {
    hide ObjectionText;
    var text := Ascii(ObjectionText(o));
    hide FrameString;
    GoawayOctets(ObjectionCode(o), text);
  }

  lemma GoawayOctets(code: Byte, text: Bytes)
    requires |text| < 100
    ensures FrameString(GoawayFrame(code, text))
        == [0, 0, 8 + |text|, 7, 0, 0, 0, 0, 0, 0, 0, 0, 0, 0, 0, 0, code] + text
  {
    var n := 8 + |text|;
    assert U24Bytes(n) == [0, 0, n] && U32Bytes(0) == [0, 0, 0, 0] && U32Bytes(code) == [0, 0, 0, code];
    hide U24Bytes, U32Bytes;
  }

  lemma WelcomeIs(rest: Bytes)
    ensures var output := FrameString(SettingsFrame(false)) + FrameString(SettingsFrame(true));
            Welcomed(Reading(Verdict(Accepted, output, true), rest))
  {
    assert FrameString(SettingsFrame(false)) == [0, 0, 0, 4, 0, 0, 0, 0, 0];
    assert FrameString(SettingsFrame(true)) == [0, 0, 0, 4, 1, 0, 0, 0, 0];
  }

  /** Behind the preface: the verdict for every front of a first frame. */
  lemma AfterPreface(s: Bytes, limit: nat, enabled: bool, allowed: bool)
    ensures var buffer := Preface() + s;
      var r := ReadPreface(buffer, limit, enabled, allowed);
      var parsed := ParseFrame(s, 16384);
      if |buffer| > limit then RefusedWith(r, 1)
      else if parsed.Incomplete? then r.verdict == Verdict(NeedMore, [], true) && r.buffer == buffer
      else if !parsed.Parsed? || parsed.frame.kind != 4 || parsed.frame.streamId != 0 then RefusedWith(r, 1)
      else
        && r.buffer == s[parsed.consumed..]
        && if !enabled then RefusedWith(r, 13) else if !allowed then RefusedWith(r, 11) else Welcomed(r)
  {
    hide ParseFrame, Preface, Rejection, FrameString;
    var buffer := Preface() + s;
    assert buffer[..24] == Preface() && Preface()[..24] == Preface() && buffer[24..] == s;
    var r := ReadPreface(buffer, limit, enabled, allowed);
    RejectionIs(TooLong, []);
    RejectionIs(NoSettings, []);
    RejectionIs(Disabled, r.buffer);
    RejectionIs(RateLimited, r.buffer);
    WelcomeIs(r.buffer);
    var parsed := ParseFrame(s, 16384);
    if parsed.Parsed? {
      assert buffer[24 + parsed.consumed..] == s[parsed.consumed..];
    }
  }

  /** Before that: the front of the preface waits, and anything else is no HTTP/2, and stays. */
  lemma BeforePreface(buffer: Bytes, limit: nat, enabled: bool, allowed: bool)
    requires !(Preface() <= buffer)
    ensures var r := ReadPreface(buffer, limit, enabled, allowed);
      && r.buffer == buffer && r.verdict.output == [] && r.verdict.keepConnection
      && r.verdict.status == if buffer != [] && buffer <= Preface() then NeedMore else NotHttp2
  {
    hide Preface;
    if |buffer| < 24 {
      assert buffer[..|buffer|] == buffer;
    } else {
      assert Preface()[..24] == Preface();
    }
  }
}
