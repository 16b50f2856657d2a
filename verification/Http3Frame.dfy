/** HTTP/3 frames and SETTINGS payloads (section 7 of RFC 9114), on the variable-length integers
    of QUIC (section 16 of RFC 9000). */
module Http3Frame {
  import opened Wrappers
  import opened Octets

  const VARINT_LIMIT: nat := 0x4000_0000_0000_0000

  datatype FrameError = VarintTooLarge | IncompleteIdentifier | IncompleteValue

  // ----- numbers in big-endian order

  function Pow256(n: nat): nat {
    if n == 0 then 1 else 256 * Pow256(n - 1)
  }

  /** The last `n` octets of a number. */
  function BigEndian(v: nat, n: nat): (r: Bytes)
    ensures |r| == n
  {
    if n == 0 then [] else BigEndian(v / 256, n - 1) + [v % 256]
  }

  function Value(s: Bytes): nat {
    if s == [] then 0 else 256 * Value(s[..|s| - 1]) + s[|s| - 1]
  }

  lemma {:induction false} ValueOfBigEndian(v: nat, n: nat)
    requires v < Pow256(n)
    ensures Value(BigEndian(v, n)) == v
  {
    if n > 0 {
      ValueOfBigEndian(v / 256, n - 1);
      var s := BigEndian(v, n);
      assert s[..n - 1] == BigEndian(v / 256, n - 1);
    }
  }

  lemma {:induction false} FirstOctetSmall(v: nat, n: nat)
    requires n > 0 && v < 64 * Pow256(n - 1)
    ensures BigEndian(v, n)[0] < 64
  {
    if n > 1 {
      FirstOctetSmall(v / 256, n - 1);
    } else {
      assert BigEndian(v / 256, 0) == [];
    }
  }

  lemma {:induction false} ValueBelow(s: Bytes)
    requires s != [] && s[0] < 64
    ensures Value(s) < 64 * Pow256(|s| - 1)
  {
    if |s| == 1 {
      assert Value(s[..0]) == 0;
    } else {
      ValueBelow(s[..|s| - 1]);
    }
  }

  // ----- variable-length integers

  /** The number of octets that the encoder takes. */
  function LengthFor(v: nat): nat {
    if v < 0x40 then 1 else if v < 0x4000 then 2 else if v < 0x4000_0000 then 4 else 8
  }

  /** The two bits that stand for a length. */
  function MarkFor(length: nat): Byte {
    if length == 1 then 0 else if length == 2 then 0x40 else if length == 4 then 0x80 else 0xC0
  }

  function LengthOf(first: Byte): nat {
    if first < 0x40 then 1 else if first < 0x80 then 2 else if first < 0xC0 then 4 else 8
  }

  function VarintWire(v: nat): (r: Bytes)
    requires v < VARINT_LIMIT
    ensures |r| == LengthFor(v)
  {
    FirstFits(v);
    var s := BigEndian(v, LengthFor(v));
    [s[0] + MarkFor(LengthFor(v))] + s[1..]
  }

  lemma FirstFits(v: nat)
    requires v < VARINT_LIMIT
    ensures v < 64 * Pow256(LengthFor(v) - 1) && v < Pow256(LengthFor(v))
    ensures BigEndian(v, LengthFor(v))[0] < 64
  {
    assert Pow256(0) == 1 && Pow256(1) == 0x100 && Pow256(2) == 0x1_0000 && Pow256(3) == 0x100_0000;
    assert Pow256(4) == 0x1_0000_0000 && Pow256(6) == 0x1_0000_0000_0000 && Pow256(7) == 0x100_0000_0000_0000;
    assert Pow256(8) == 0x1_0000_0000_0000_0000;
    FirstOctetSmall(v, LengthFor(v));
  }

  datatype Varint = NotYet | Varint(value: nat, consumed: nat)

  /** The integer at the front of `s`. */
  function DecodeVarint(s: Bytes): (r: Varint)
    ensures r.Varint? ==> 0 < r.consumed <= |s|
  {
    if s == [] || |s| < LengthOf(s[0]) then NotYet
    else Varint(Value([s[0] % 64] + s[1..LengthOf(s[0])]), LengthOf(s[0]))
  }

  /** `encode_varint`. */
  method EncodeVarint(value: nat) returns (r: Result<Bytes, FrameError>)
    requires value <= SIZE_MAX
    ensures r == if value < VARINT_LIMIT then Ok(VarintWire(value)) else Err(VarintTooLarge)
  {
    hide VarintWire, BigEndian;
    if value <= 0x3f {
      OneOctet(value);
      return Ok([value]);
    }
    if value <= 0x3fff {
      MarkedFirst(value, value / 0x100 % 0x100, [value % 0x100]) by { TwoOctets(value); }
      return Ok([0x40 + value / 0x100 % 0x40] + [value % 0x100]);
    }
    if value <= 0x3fff_ffff {
      MarkedFirst(value, value / 0x100_0000 % 0x100, LowThree(value)) by { FourOctets(value); }
      return Ok([0x80 + value / 0x100_0000 % 0x40] + LowThree(value));
    }
    if value <= 0x3fff_ffff_ffff_ffff {
      MarkedFirst(value, value / 0x100_0000_0000_0000 % 0x100, LowSeven(value)) by { EightOctets(value); }
      return Ok([0xC0 + value / 0x100_0000_0000_0000 % 0x40] + LowSeven(value));
    }
    r := Err(VarintTooLarge);
  }

  function LowThree(v: nat): Bytes {
    [v / 0x1_0000 % 0x100, v / 0x100 % 0x100, v % 0x100]
  }

  function LowSeven(v: nat): Bytes {
    [v / 0x1_0000_0000_0000 % 0x100, v / 0x100_0000_0000 % 0x100, v / 0x1_0000_0000 % 0x100, v / 0x100_0000 % 0x100]
    + LowThree(v)
  }

  lemma MarkedFirst(v: nat, first: Byte, rest: Bytes)
    requires v < VARINT_LIMIT && BigEndian(v, LengthFor(v)) == [first] + rest
    ensures first < 64 && VarintWire(v) == [MarkFor(LengthFor(v)) + first] + rest
  {
    FirstFits(v);
  }

  lemma OneOctet(v: nat)
    requires v < 0x40
    ensures var wire: Bytes := [v]; VarintWire(v) == wire
  {
    assert BigEndian(v / 256, 0) == [];
    assert BigEndian(v, 1) == [v] && [v][1..] == [];
  }

  lemma TwoOctets(v: nat)
    ensures BigEndian(v, 2) == [v / 0x100 % 0x100, v % 0x100]
  {
    assert BigEndian(v / 256 / 256, 0) == [];
  }

  lemma FourOctets(v: nat)
    ensures BigEndian(v, 4) == [v / 0x100_0000 % 0x100] + LowThree(v)
  {
    TwoOctets(v / 0x1_0000);
    assert v / 0x100 / 0x100 == v / 0x1_0000 && v / 0x1_0000 / 0x100 == v / 0x100_0000;
    assert BigEndian(v, 4) == BigEndian(v / 256 / 256, 2) + [v / 256 % 256] + [v % 256];
  }

  lemma EightOctets(v: nat)
    ensures BigEndian(v, 8) == [v / 0x100_0000_0000_0000 % 0x100] + LowSeven(v)
  {
    var high: nat := v / 0x1_0000_0000;
    FourOctets(high);
    assert high / 0x100 == v / 0x100_0000_0000 && high / 0x1_0000 == v / 0x1_0000_0000_0000
        && high / 0x100_0000 == v / 0x100_0000_0000_0000;
    assert v / 0x100 / 0x100 == v / 0x1_0000 && v / 0x1_0000 / 0x100 == v / 0x100_0000
        && v / 0x100_0000 / 0x100 == high;
    LastFour(v);
  }

  lemma LastFour(v: nat)
    ensures BigEndian(v, 8) == BigEndian(v / 256 / 256 / 256 / 256, 4)
                               + [v / 256 / 256 / 256 % 256, v / 256 / 256 % 256, v / 256 % 256, v % 256]
  {
    assert BigEndian(v, 8) == BigEndian(v / 256, 7) + [v % 256];
    assert BigEndian(v / 256, 7) == BigEndian(v / 256 / 256, 6) + [v / 256 % 256];
    assert BigEndian(v / 256 / 256, 6) == BigEndian(v / 256 / 256 / 256, 5) + [v / 256 / 256 % 256];
    assert BigEndian(v / 256 / 256 / 256, 5) == BigEndian(v / 256 / 256 / 256 / 256, 4) + [v / 256 / 256 / 256 % 256];
  }

  /** `decode_varint`, with its loop. */
  method ReadVarint(bytes: Bytes, offset: nat) returns (r: Varint)
    ensures r == if offset <= |bytes| then DecodeVarint(bytes[offset..]) else NotYet
  {
    if offset >= |bytes| {
      return NotYet;
    }
    var length := LengthOf(bytes[offset]);
    if |bytes| - offset < length {
      return NotYet;
    }
    ghost var s := bytes[offset..];
    ghost var masked := [s[0] % 64] + s[1..length];
    var value: nat := bytes[offset] % 64;
    assert masked[..1] == [s[0] % 64] && masked[..1][..0] == [] && Value([]) == 0;
    for index := 1 to length
      invariant value == Value(masked[..index])
    {
      assert masked[..index + 1][..index] == masked[..index];
      assert masked[index] == s[1..length][index - 1] == bytes[offset + index];
      value := value * 256 + bytes[offset + index];
    }
    assert masked[..length] == masked;
    r := Varint(value, length);
  }

  /** Decoding undoes encoding, whatever follows. */
  lemma VarintRoundTrip(v: nat, suffix: Bytes)
    requires v < VARINT_LIMIT
    ensures DecodeVarint(VarintWire(v) + suffix) == Varint(v, LengthFor(v))
  {
    FirstFits(v);
    ValueOfBigEndian(v, LengthFor(v));
    hide BigEndian, Value, Pow256;
    var s := BigEndian(v, LengthFor(v));
    var wire := VarintWire(v) + suffix;
    assert wire[0] % 64 == s[0];
    assert [wire[0] % 64] + wire[1..LengthFor(v)] == s;
  }

  /** A strict prefix of an encoded integer is not decoded. */
  lemma VarintPrefix(v: nat, n: nat)
    requires v < VARINT_LIMIT && n < LengthFor(v)
    ensures DecodeVarint(VarintWire(v)[..n]).NotYet?
  {
    FirstFits(v);
    hide BigEndian, Value, Pow256;
  }

  /** What is decoded is below the limit and never has a shorter encoding than the encoder's. */
  lemma VarintIsShortest(s: Bytes)
    requires DecodeVarint(s).Varint?
    ensures DecodeVarint(s).value < VARINT_LIMIT
    ensures |VarintWire(DecodeVarint(s).value)| <= DecodeVarint(s).consumed
  {
    var masked := [s[0] % 64] + s[1..LengthOf(s[0])];
    ValueBelow(masked);
    assert Pow256(0) == 1 && Pow256(1) == 0x100 && Pow256(3) == 0x100_0000;
    assert Pow256(5) == 0x100_0000_0000 && Pow256(7) == 0x100_0000_0000_0000;
  }

  lemma VarintStable(s: Bytes, more: Bytes)
    requires DecodeVarint(s).Varint?
    ensures DecodeVarint(s + more) == DecodeVarint(s)
  {
    assert (s + more)[1..LengthOf(s[0])] == s[1..LengthOf(s[0])];
  }

  // ----- frames

  datatype Frame = Frame(kind: nat, payload: Bytes)

  predicate Encodable(f: Frame) {
    f.kind < VARINT_LIMIT && |f.payload| < VARINT_LIMIT
  }

  function FrameWire(f: Frame): Bytes
    requires Encodable(f)
  {
    VarintWire(f.kind) + VarintWire(|f.payload|) + f.payload
  }

  /** `serialize_frame`. */
  method SerializeFrame(f: Frame) returns (r: Result<Bytes, FrameError>)
    requires f.kind <= SIZE_MAX && |f.payload| <= SIZE_MAX
    ensures r == if Encodable(f) then Ok(FrameWire(f)) else Err(VarintTooLarge)
  {
    hide VarintWire;
    var kind := EncodeVarint(f.kind);
    if kind.Err? {
      return kind;
    }
    var length := EncodeVarint(|f.payload|);
    if length.Err? {
      return length;
    }
    r := Ok(kind.value + length.value + f.payload);
  }

  datatype ParseResult = Incomplete | Parsed(frame: Frame, consumed: nat)

  function ParseFrame(s: Bytes): (r: ParseResult)
    ensures r.Parsed? ==> r.consumed <= |s|
  {
    match DecodeVarint(s)
    case NotYet => Incomplete
    case Varint(kind, kindSize) =>
      match DecodeVarint(s[kindSize..])
      case NotYet => Incomplete
      case Varint(length, lengthSize) =>
        var start := kindSize + lengthSize;
        if |s| - start < length then Incomplete else Parsed(Frame(kind, s[start..start + length]), start + length)
  }

  /** `parse_frame`, with its copying loop. */
  method ReadFrame(bytes: Bytes) returns (r: ParseResult)
    ensures r == ParseFrame(bytes)
  {
    hide DecodeVarint;
    assert bytes[0..] == bytes;
    var kind := ReadVarint(bytes, 0);
    if kind.NotYet? {
      return Incomplete;
    }
    var length := ReadVarint(bytes, kind.consumed);
    if length.NotYet? {
      return Incomplete;
    }
    var start := kind.consumed + length.consumed;
    if |bytes| - start < length.value {
      return Incomplete;
    }
    var payload: Bytes := [];
    for index := 0 to length.value
      invariant payload == bytes[start..start + index]
    {
      payload := payload + [bytes[start + index]];
    }
    r := Parsed(Frame(kind.value, payload), start + length.value);
  }

  /** Parsing undoes serialising, whatever follows. */
  lemma FrameRoundTrip(f: Frame, suffix: Bytes)
    requires Encodable(f)
    ensures ParseFrame(FrameWire(f) + suffix) == Parsed(f, |FrameWire(f)|)
  {
    hide DecodeVarint, VarintWire;
    var kind, length := VarintWire(f.kind), VarintWire(|f.payload|);
    var s := FrameWire(f) + suffix;
    VarintRoundTrip(f.kind, length + f.payload + suffix);
    assert s == kind + (length + f.payload + suffix);
    VarintRoundTrip(|f.payload|, f.payload + suffix);
    assert s[|kind|..] == length + (f.payload + suffix);
    assert s[|kind| + |length|..|kind| + |length| + |f.payload|] == f.payload;
  }

  lemma PrefixOfThree(a: Bytes, b: Bytes, c: Bytes, n: nat)
    requires n <= |a + b + c|
    ensures n < |a| ==> (a + b + c)[..n] == a[..n]
    ensures |a| <= n < |a| + |b| ==> (a + b + c)[..n] == a + b[..n - |a|]
    ensures |a| + |b| <= n ==> (a + b + c)[..n] == a + (b + c[..n - |a| - |b|])
  {
  }

  /** Every strict prefix of a frame is incomplete. */
  lemma FramePrefix(f: Frame, n: nat)
    requires Encodable(f) && n < |FrameWire(f)|
    ensures ParseFrame(FrameWire(f)[..n]) == Incomplete
  {
    hide DecodeVarint, VarintWire;
    var kind, length := VarintWire(f.kind), VarintWire(|f.payload|);
    PrefixOfThree(kind, length, f.payload, n);
    if n < |kind| {
      VarintPrefix(f.kind, n);
    } else {
      var rest := if n < |kind| + |length| then length[..n - |kind|] else length + f.payload[..n - |kind| - |length|];
      VarintRoundTrip(f.kind, rest);
      assert (kind + rest)[|kind|..] == rest;
      if n < |kind| + |length| {
        VarintPrefix(|f.payload|, n - |kind|);
      } else {
        VarintRoundTrip(|f.payload|, f.payload[..n - |kind| - |length|]);
      }
    }
  }

  /** A frame that has been found stays the first one when more input arrives. */
  lemma ParseStable(s: Bytes, more: Bytes)
    requires ParseFrame(s).Parsed?
    ensures ParseFrame(s + more) == ParseFrame(s)
  {
    hide DecodeVarint;
    VarintStable(s, more);
    var kindSize: nat := DecodeVarint(s).consumed;
    VarintStable(s[kindSize..], more);
    assert (s + more)[kindSize..] == s[kindSize..] + more;
    var start: nat := kindSize + DecodeVarint(s[kindSize..]).consumed;
    var length: nat := DecodeVarint(s[kindSize..]).value;
    assert (s + more)[start..start + length] == s[start..start + length];
  }

  /** A parsed frame can be serialised again, in no more octets: senders may use longer
      integers than they need to. */
  lemma ReprintIsNoLonger(s: Bytes)
    requires ParseFrame(s).Parsed?
    ensures Encodable(ParseFrame(s).frame) && |FrameWire(ParseFrame(s).frame)| <= ParseFrame(s).consumed
  {
    hide DecodeVarint, VarintWire;
    VarintIsShortest(s);
    VarintIsShortest(s[DecodeVarint(s).consumed..]);
  }

  // ----- SETTINGS payloads

  datatype Setting = Setting(identifier: nat, value: nat)

  predicate AllEncodable(settings: seq<Setting>) {
    forall i :: 0 <= i < |settings| ==> settings[i].identifier < VARINT_LIMIT && settings[i].value < VARINT_LIMIT
  }

  function SettingsWire(settings: seq<Setting>): Bytes
    requires AllEncodable(settings)
  {
    if settings == [] then []
    else VarintWire(settings[0].identifier) + VarintWire(settings[0].value) + SettingsWire(settings[1..])
  }

  /** The first setting of a payload, and the octets that it takes. */
  function FirstSetting(s: Bytes): (r: Result<(Setting, nat), FrameError>)
    ensures r.Ok? ==> 0 < r.value.1 <= |s|
  {
    match DecodeVarint(s)
    case NotYet => Err(IncompleteIdentifier)
    case Varint(identifier, used) =>
      match DecodeVarint(s[used..])
      case NotYet => Err(IncompleteValue)
      case Varint(value, more) => Ok((Setting(identifier, value), used + more))
  }

  function ParseSettings(s: Bytes): Result<seq<Setting>, FrameError>
    decreases |s|
  {
    if s == [] then Ok([])
    else
      match FirstSetting(s)
      case Err(e) => Err(e)
      case Ok((setting, used)) => Prefixed([setting], ParseSettings(s[used..]))
  }

  function Prefixed(done: seq<Setting>, r: Result<seq<Setting>, FrameError>): Result<seq<Setting>, FrameError> {
    match r case Ok(settings) => Ok(done + settings) case Err(e) => Err(e)
  }

  lemma PrefixedTwice(a: seq<Setting>, b: seq<Setting>, r: Result<seq<Setting>, FrameError>)
    ensures Prefixed(a, Prefixed(b, r)) == Prefixed(a + b, r)
  {
    if r.Ok? {
      assert a + (b + r.value) == a + b + r.value;
    }
  }

  /** `serialize_settings_payload`, for settings that can be encoded. */
  method WriteSettings(settings: seq<Setting>) returns (r: Result<Bytes, FrameError>)
    requires forall i :: 0 <= i < |settings| ==> settings[i].identifier <= SIZE_MAX && settings[i].value <= SIZE_MAX
    ensures r == if AllEncodable(settings) then Ok(SettingsWire(settings)) else Err(VarintTooLarge)
  {
    hide VarintWire;
    var payload: Bytes := [];
    for i := 0 to |settings|
      invariant AllEncodable(settings[..i])
      invariant payload == SettingsWire(settings[..i])
    {
      var identifier := EncodeVarint(settings[i].identifier);
      if identifier.Err? {
        return identifier;
      }
      var value := EncodeVarint(settings[i].value);
      if value.Err? {
        return value;
      }
      assert settings[..i + 1] == settings[..i] + [settings[i]];
      WireOfMore(settings[..i], settings[i]);
      payload := payload + identifier.value + value.value;
    }
    assert settings[..|settings|] == settings;
    r := Ok(payload);
  }

  lemma {:induction false} WireOfMore(settings: seq<Setting>, last: Setting)
    requires AllEncodable(settings) && last.identifier < VARINT_LIMIT && last.value < VARINT_LIMIT
    ensures AllEncodable(settings + [last])
    ensures SettingsWire(settings + [last])
        == SettingsWire(settings) + VarintWire(last.identifier) + VarintWire(last.value)
  {
    hide VarintWire;
    if settings == [] {
      assert settings + [last] == [last] && [last][1..] == [];
    } else {
      assert (settings + [last])[1..] == settings[1..] + [last];
      WireOfMore(settings[1..], last);
    }
  }

  /** `parse_settings_payload`. */
  method ReadSettings(payload: Bytes) returns (r: Result<seq<Setting>, FrameError>)
    ensures r == ParseSettings(payload)
  {
    hide DecodeVarint;
    var settings: seq<Setting> := [];
    var offset := 0;
    assert payload[0..] == payload;
    assert ParseSettings(payload).Ok? ==> [] + ParseSettings(payload).value == ParseSettings(payload).value;
    while offset < |payload|
      invariant offset <= |payload|
      invariant ParseSettings(payload) == Prefixed(settings, ParseSettings(payload[offset..]))
    {
      ghost var rest := payload[offset..];
      var identifier := ReadVarint(payload, offset);
      if identifier.NotYet? {
        return Err(IncompleteIdentifier);
      }
      assert rest[identifier.consumed..] == payload[offset + identifier.consumed..];
      offset := offset + identifier.consumed;
      var value := ReadVarint(payload, offset);
      if value.NotYet? {
        return Err(IncompleteValue);
      }
      assert rest[identifier.consumed + value.consumed..] == payload[offset + value.consumed..];
      offset := offset + value.consumed;
      var setting := Setting(identifier.value, value.value);
      PrefixedTwice(settings, [setting], ParseSettings(payload[offset..]));
      settings := settings + [setting];
    }
    assert payload[offset..] == [] && settings + [] == settings;
    r := Ok(settings);
  }

  lemma FirstSettingReadBack(setting: Setting, rest: Bytes)
    requires setting.identifier < VARINT_LIMIT && setting.value < VARINT_LIMIT
    ensures var wire := VarintWire(setting.identifier) + VarintWire(setting.value);
            FirstSetting(wire + rest) == Ok((setting, |wire|)) && (wire + rest)[|wire|..] == rest
  {
    hide DecodeVarint, VarintWire;
    var a, b := VarintWire(setting.identifier), VarintWire(setting.value);
    VarintRoundTrip(setting.identifier, b + rest);
    VarintRoundTrip(setting.value, rest);
    assert a + b + rest == a + (b + rest) && (a + b + rest)[|a|..] == b + rest;
  }

  /** SETTINGS lists of any length survive the wire. */
  lemma {:induction false} SettingsRoundTrip(settings: seq<Setting>)
    requires AllEncodable(settings)
    ensures ParseSettings(SettingsWire(settings)) == Ok(settings)
  {
    hide FirstSetting, VarintWire;
    if settings != [] {
      SettingsRoundTrip(settings[1..]);
      FirstSettingReadBack(settings[0], SettingsWire(settings[1..]));
      assert [settings[0]] + settings[1..] == settings;
    }
  }
}
