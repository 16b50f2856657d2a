/** HTTP/2 frames and SETTINGS payloads on the wire (sections 4.1 and 6 of RFC 9113). */
module Http2Frame {
  import opened Wrappers
  import opened Octets

  const DATA: Byte := 0
  const HEADERS: Byte := 1
  const PRIORITY: Byte := 2
  const RST_STREAM: Byte := 3
  const SETTINGS: Byte := 4
  const PUSH_PROMISE: Byte := 5
  const PING: Byte := 6
  const GOAWAY: Byte := 7
  const WINDOW_UPDATE: Byte := 8
  const CONTINUATION: Byte := 9

  const DEFAULT_MAX_FRAME_SIZE: nat := 16384
  const MAX_ALLOWED_FRAME_SIZE: nat := 0xFF_FFFF
  const MAX_STREAM_ID: nat := 0x7FFF_FFFF

  type U32 = n: int | 0 <= n < 0x1_0000_0000

  datatype Frame = Frame(kind: Byte, flags: Byte, streamId: U32, payload: Bytes)

  datatype FrameError =
    | MaxFrameSizeTooLarge | PayloadTooLarge | StreamFrameOnZero | ConnectionFrameOnStream
    | SettingsAckWithPayload | SettingsLength | PingLength | RstStreamLength | GoawayLength
    | WindowUpdateLength | ZeroIncrement | StreamIdTooLarge

  // ----- fixed-width numbers

  function U24Bytes(v: nat): Bytes
    requires v <= 0xFF_FFFF
  {
    [v / 0x1_0000, v / 0x100 % 0x100, v % 0x100]
  }

  function U32Bytes(v: U32): Bytes {
    [v / 0x100_0000, v / 0x1_0000 % 0x100, v / 0x100 % 0x100, v % 0x100]
  }

  function ReadU24(s: Bytes): nat
    requires |s| >= 3
  {
    0x1_0000 * (s[0] as int) + 0x100 * (s[1] as int) + s[2]
  }

  function ReadU32(s: Bytes): U32
    requires |s| >= 4
  {
    0x100_0000 * (s[0] as int) + 0x1_0000 * (s[1] as int) + 0x100 * (s[2] as int) + s[3]
  }

  function ReadU31(s: Bytes): U32
    requires |s| >= 4
  {
    0x100_0000 * (s[0] as int % 0x80) + 0x1_0000 * (s[1] as int) + 0x100 * (s[2] as int) + s[3]
  }

  lemma U24RoundTrip(v: nat, more: Bytes)
    requires v <= 0xFF_FFFF
    ensures ReadU24(U24Bytes(v) + more) == v
  {
  }

  lemma U32RoundTrip(v: U32, more: Bytes)
    ensures ReadU32(U32Bytes(v) + more) == v
    ensures v <= MAX_STREAM_ID ==> ReadU31(U32Bytes(v) + more) == v
  {
    var a: int, b: int, c: int := v / 0x100_0000, v / 0x1_0000, v / 0x100;
    assert b == c / 0x100 && a == b / 0x100;
    assert v == 0x100 * c + v % 0x100 && c == 0x100 * b + c % 0x100 && b == 0x100 * a + b % 0x100;
    assert (U32Bytes(v) + more)[..4] == U32Bytes(v);
  }

  lemma U32Reprint(s: Bytes)
    requires |s| == 4
    ensures U32Bytes(ReadU32(s)) == s
  {
    var v: int := ReadU32(s);
    assert v / 0x100 == 0x1_0000 * (s[0] as int) + 0x100 * (s[1] as int) + s[2];
    assert v / 0x1_0000 == 0x100 * (s[0] as int) + s[1];
    assert v / 0x100_0000 == s[0];
  }

  // ----- frames

  predicate IsStreamFrame(kind: Byte) {
    kind in {DATA, HEADERS, PRIORITY, RST_STREAM, PUSH_PROMISE, CONTINUATION}
  }

  predicate IsConnectionFrame(kind: Byte) {
    kind in {SETTINGS, PING, GOAWAY}
  }

  /** The first rule that a frame breaks. */
  function Violation(f: Frame, maxFrameSize: nat): Option<FrameError> {
    if maxFrameSize > MAX_ALLOWED_FRAME_SIZE then Some(MaxFrameSizeTooLarge)
    else if |f.payload| > maxFrameSize then Some(PayloadTooLarge)
    else if IsStreamFrame(f.kind) && f.streamId == 0 then Some(StreamFrameOnZero)
    else if IsConnectionFrame(f.kind) && f.streamId != 0 then Some(ConnectionFrameOnStream)
    else if f.kind == SETTINGS && f.flags % 2 == 1 && f.payload != [] then Some(SettingsAckWithPayload)
    else if f.kind == SETTINGS && |f.payload| % 6 != 0 then Some(SettingsLength)
    else if f.kind == PING && |f.payload| != 8 then Some(PingLength)
    else if f.kind == RST_STREAM && |f.payload| != 4 then Some(RstStreamLength)
    else if f.kind == GOAWAY && |f.payload| < 8 then Some(GoawayLength)
    else if f.kind == WINDOW_UPDATE && |f.payload| != 4 then Some(WindowUpdateLength)
    else if f.kind == WINDOW_UPDATE && ReadU31(f.payload) == 0 then Some(ZeroIncrement)
    else None
  }

  predicate ValidFrame(f: Frame, maxFrameSize: nat) {
    f.streamId <= MAX_STREAM_ID && Violation(f, maxFrameSize).None?
  }

  /** The nine-octet header and the payload. */
  function FrameWire(f: Frame): Bytes
    requires |f.payload| <= MAX_ALLOWED_FRAME_SIZE && f.streamId <= MAX_STREAM_ID
  {
    U24Bytes(|f.payload|) + [f.kind, f.flags] + U32Bytes(f.streamId) + f.payload
  }

  function SerializeFrame(f: Frame, maxFrameSize: nat): (r: Result<Bytes, FrameError>)
    ensures r.Ok? <==> ValidFrame(f, maxFrameSize)
  {
    if f.streamId > MAX_STREAM_ID then Err(StreamIdTooLarge)
    else
      match Violation(f, maxFrameSize)
      case Some(e) => Err(e)
      case None => Ok(FrameWire(f))
  }

  /** `serialize_frame`, octet by octet. */
  method WriteFrame(f: Frame, maxFrameSize: nat) returns (r: Result<Bytes, FrameError>)
    ensures r == SerializeFrame(f, maxFrameSize)
  {
    if f.streamId > MAX_STREAM_ID {
      return Err(StreamIdTooLarge);
    }
    var violation := Violation(f, maxFrameSize);
    if violation.Some? {
      return Err(violation.value);
    }
    var size := |f.payload|;
    var output: Bytes := [size / 0x1_0000, size / 0x100 % 0x100, size % 0x100];
    output := output + [f.kind];
    output := output + [f.flags];
    output := output + [f.streamId / 0x100_0000, f.streamId / 0x1_0000 % 0x100];
    output := output + [f.streamId / 0x100 % 0x100, f.streamId % 0x100];
    output := output + f.payload;
    assert output == FrameWire(f);
    r := Ok(output);
  }

  datatype ParseResult =
    | Incomplete
    | Invalid(error: FrameError)
    | Parsed(frame: Frame, consumed: nat)

  /** The frame that nine header octets and what follows them describe. */
  function FrameIn(bytes: Bytes): Frame
    requires |bytes| >= 9 && |bytes| >= 9 + ReadU24(bytes)
  {
    Frame(bytes[3], bytes[4], ReadU31(bytes[5..9]), bytes[9..9 + ReadU24(bytes)])
  }

  function ParseFrame(bytes: Bytes, maxFrameSize: nat): (r: ParseResult)
    ensures r.Parsed? ==> 9 <= r.consumed <= |bytes| && ValidFrame(r.frame, maxFrameSize)
  {
    if |bytes| < 9 then Incomplete
    else if maxFrameSize > MAX_ALLOWED_FRAME_SIZE then Invalid(MaxFrameSizeTooLarge)
    else if ReadU24(bytes) > maxFrameSize then Invalid(PayloadTooLarge)
    else if |bytes| < 9 + ReadU24(bytes) then Incomplete
    else
      match Violation(FrameIn(bytes), maxFrameSize)
      case Some(e) => Invalid(e)
      case None => Parsed(FrameIn(bytes), 9 + ReadU24(bytes))
  }

  /** `parse_frame`, with its copying loop. */
  method ReadFrame(bytes: Bytes, maxFrameSize: nat) returns (r: ParseResult)
    ensures r == ParseFrame(bytes, maxFrameSize)
  {
    if |bytes| < 9 {
      return Incomplete;
    }
    if maxFrameSize > MAX_ALLOWED_FRAME_SIZE {
      return Invalid(MaxFrameSizeTooLarge);
    }
    var length := ReadU24(bytes);
    if length > maxFrameSize {
      return Invalid(PayloadTooLarge);
    }
    if |bytes| < 9 + length {
      return Incomplete;
    }
    var payload: Bytes := [];
    for index := 0 to length
      invariant payload == bytes[9..9 + index]
    {
      payload := payload + [bytes[9 + index]];
    }
    var frame := Frame(bytes[3], bytes[4], ReadU31(bytes[5..9]), payload);
    var violation := Violation(frame, maxFrameSize);
    if violation.Some? {
      return Invalid(violation.value);
    }
    r := Parsed(frame, 9 + length);
  }

  /** Parsing undoes serialising, whatever follows, and every strict prefix of a frame is
      reported as incomplete. */
  lemma FrameRoundTrip(f: Frame, maxFrameSize: nat, suffix: Bytes)
    requires ValidFrame(f, maxFrameSize)
    ensures |FrameWire(f)| == 9 + |f.payload|
    ensures ParseFrame(FrameWire(f) + suffix, maxFrameSize) == Parsed(f, |FrameWire(f)|)
    ensures forall n :: 0 <= n < |FrameWire(f)| ==> ParseFrame(FrameWire(f)[..n], maxFrameSize) == Incomplete
  {
    var wire := FrameWire(f);
    var bytes := wire + suffix;
    U24RoundTrip(|f.payload|, bytes[3..]);
    assert bytes == U24Bytes(|f.payload|) + bytes[3..];
    U32RoundTrip(f.streamId, []);
    assert bytes[5..9] == U32Bytes(f.streamId) + [];
    assert bytes[9..9 + |f.payload|] == f.payload;
    forall n | 0 <= n < |wire|
      ensures ParseFrame(wire[..n], maxFrameSize) == Incomplete
    {
      if n >= 9 {
        assert wire[..n][0] == bytes[0] && wire[..n][1] == bytes[1] && wire[..n][2] == bytes[2];
      }
    }
  }

  /** A verdict on the front of the input stands when more input arrives. */
  lemma ParseStable(bytes: Bytes, more: Bytes, maxFrameSize: nat)
    requires !ParseFrame(bytes, maxFrameSize).Incomplete?
    ensures ParseFrame(bytes + more, maxFrameSize) == ParseFrame(bytes, maxFrameSize)
  {
    var all := bytes + more;
    assert ReadU24(all) == ReadU24(bytes);
    assert all[5..9] == bytes[5..9];
    if |bytes| >= 9 + ReadU24(bytes) {
      assert all[9..9 + ReadU24(bytes)] == bytes[9..9 + ReadU24(bytes)];
    }
  }

  // ----- the frames in a string of octets

  /** All frames at the front of `bytes`, up to the first that is incomplete or invalid. */
  function FramesIn(bytes: Bytes): (r: seq<Frame>)
    ensures forall i :: 0 <= i < |r| ==> ValidFrame(r[i], DEFAULT_MAX_FRAME_SIZE)
    decreases |bytes|
  {
    match ParseFrame(bytes, DEFAULT_MAX_FRAME_SIZE)
    case Parsed(frame, consumed) => [frame] + FramesIn(bytes[consumed..])
    case _ => []
  }

  lemma FramesInAfter(f: Frame, suffix: Bytes)
    requires ValidFrame(f, DEFAULT_MAX_FRAME_SIZE)
    ensures FramesIn(FrameWire(f) + suffix) == [f] + FramesIn(suffix)
  {
    FrameRoundTrip(f, DEFAULT_MAX_FRAME_SIZE, suffix);
    assert (FrameWire(f) + suffix)[|FrameWire(f)|..] == suffix;
  }

  /** The payloads of some frames, joined. */
  function Payloads(frames: seq<Frame>): Bytes {
    if frames == [] then [] else frames[0].payload + Payloads(frames[1..])
  }

  // ----- SETTINGS payloads

  datatype Setting = Setting(identifier: nat, value: U32) {
    predicate Valid() {
      identifier < 0x1_0000
    }
  }

  const HEADER_TABLE_SIZE: nat := 1

  function SettingWire(s: Setting): Bytes
    requires s.Valid()
  {
    [s.identifier / 0x100, s.identifier % 0x100] + U32Bytes(s.value)
  }

  function SettingsWire(settings: seq<Setting>): Bytes
    requires forall i :: 0 <= i < |settings| ==> settings[i].Valid()
  {
    if settings == [] then [] else SettingWire(settings[0]) + SettingsWire(settings[1..])
  }

  function SettingIn(payload: Bytes): Setting
    requires |payload| >= 6
  {
    Setting(0x100 * (payload[0] as int) + payload[1], ReadU32(payload[2..6]))
  }

  function ParseSettings(payload: Bytes): (r: seq<Setting>)
    requires |payload| % 6 == 0
    ensures |r| == |payload| / 6 && forall i :: 0 <= i < |r| ==> r[i].Valid()
  {
    if payload == [] then [] else [SettingIn(payload)] + ParseSettings(payload[6..])
  }

  /** `serialize_settings_payload`. */
  method WriteSettings(settings: seq<Setting>) returns (payload: Bytes)
    requires forall i :: 0 <= i < |settings| ==> settings[i].Valid()
    ensures payload == SettingsWire(settings)
  {
    payload := [];
    assert settings[0..] == settings;
    for i := 0 to |settings|
      invariant payload + SettingsWire(settings[i..]) == SettingsWire(settings)
    {
      assert settings[i..][1..] == settings[i + 1..];
      assert payload + (SettingWire(settings[i]) + SettingsWire(settings[i + 1..])) ==
             payload + SettingWire(settings[i]) + SettingsWire(settings[i + 1..]);
      payload := payload + SettingWire(settings[i]);
    }
  }

  lemma SettingsStep(payload: Bytes, offset: nat)
    requires |payload| % 6 == 0 && offset % 6 == 0 && offset < |payload|
    ensures offset + 6 <= |payload| && (offset + 6) % 6 == 0
    ensures ParseSettings(payload[offset..]) == [SettingAt(payload, offset)] + ParseSettings(payload[offset + 6..])
  {
    var rest := payload[offset..];
    assert rest[6..] == payload[offset + 6..] && rest[2..6] == payload[offset + 2..offset + 6];
  }

  function SettingAt(payload: Bytes, offset: nat): Setting
    requires offset + 6 <= |payload|
  {
    Setting(0x100 * (payload[offset] as int) + payload[offset + 1], ReadU32(payload[offset + 2..offset + 6]))
  }

  lemma NoSettings()
    ensures ParseSettings([]) == []
  {
  }

  lemma OneMore(done: seq<Setting>, next: Setting, rest: seq<Setting>)
    ensures done + ([next] + rest) == done + [next] + rest
  {
  }

  /** The settings in front of `offset` have been read. */
  predicate ReadUpTo(payload: Bytes, settings: seq<Setting>, offset: nat) {
    && |payload| % 6 == 0 && offset % 6 == 0 && offset <= |payload|
    && settings + ParseSettings(payload[offset..]) == ParseSettings(payload)
  }

  lemma ReadNone(payload: Bytes)
    requires |payload| % 6 == 0
    ensures ReadUpTo(payload, [], 0)
  {
    hide ParseSettings;
    assert payload[0..] == payload && [] + ParseSettings(payload) == ParseSettings(payload);
  }

  lemma ReadMore(payload: Bytes, settings: seq<Setting>, offset: nat)
    requires offset < |payload| && ReadUpTo(payload, settings, offset)
    ensures offset + 6 <= |payload| && ReadUpTo(payload, settings + [SettingAt(payload, offset)], offset + 6)
  {
    hide ParseSettings, SettingAt;
    SettingsStep(payload, offset);
    OneMore(settings, SettingAt(payload, offset), ParseSettings(payload[offset + 6..]));
  }

  lemma ReadAll(payload: Bytes, settings: seq<Setting>)
    requires ReadUpTo(payload, settings, |payload|)
    ensures |payload| % 6 == 0 && settings == ParseSettings(payload)
  {
    hide ParseSettings;
    NoSettings();
    assert payload[|payload|..] == [] && settings + [] == settings;
  }

  /** `parse_settings_payload`; it throws on any length that is not a multiple of six. */
  method ReadSettings(payload: Bytes) returns (r: Result<seq<Setting>, FrameError>)
    ensures r == if |payload| % 6 != 0 then Err(SettingsLength) else Ok(ParseSettings(payload))
  {
    hide ParseSettings, SettingAt, ReadUpTo;
    if |payload| % 6 != 0 {
      return Err(SettingsLength);
    }
    var settings: seq<Setting> := [];
    var offset: nat := 0;
    ReadNone(payload);
    while offset < |payload|
      invariant offset <= |payload| && ReadUpTo(payload, settings, offset)
    {
      ReadMore(payload, settings, offset);
      settings := settings + [SettingAt(payload, offset)];
      offset := offset + 6;
    }
    ReadAll(payload, settings);
    r := Ok(settings);
  }

  /** SETTINGS lists of any length survive the wire. */
  lemma {:induction false} SettingsRoundTrip(settings: seq<Setting>)
    requires forall i :: 0 <= i < |settings| ==> settings[i].Valid()
    ensures |SettingsWire(settings)| == 6 * |settings|
    ensures ParseSettings(SettingsWire(settings)) == settings
  {
    if settings != [] {
      SettingsRoundTrip(settings[1..]);
      var wire := SettingsWire(settings);
      assert wire[6..] == SettingsWire(settings[1..]);
      U32RoundTrip(settings[0].value, []);
      assert wire[2..6] == U32Bytes(settings[0].value) + [];
    }
  }

  /** And every payload of the right length is the wire form of what it parses to. */
  lemma {:induction false} SettingsReprint(payload: Bytes)
    requires |payload| % 6 == 0
    ensures SettingsWire(ParseSettings(payload)) == payload
  {
    if payload != [] {
      SettingsReprint(payload[6..]);
      U32Reprint(payload[2..6]);
      assert SettingWire(SettingIn(payload)) == payload[..6];
    }
  }
}
