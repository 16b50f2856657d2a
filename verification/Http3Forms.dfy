/** Every way to write an integer, a frame and a list of settings in HTTP/3, not only the shortest, and
    that the parsers take exactly these (section 16 of RFC 9000 and section 7 of RFC 9114). */
module Http3Forms {
  import opened Wrappers
  import opened Octets
  import opened Http3Frame

  // ----- integers

  /** The first octet of a form has the logarithm of the length in its two upper bits. */
  function Mark(length: nat): nat {
    if length == 1 then 0 else if length == 2 then 64 else if length == 4 then 128 else 192
  }

  /** `s` is `v` in one, two, four or eight octets, most significant first. */
  predicate IsForm(s: Bytes, v: nat) {
    && |s| in {1, 2, 4, 8} && v < 64 * Pow256(|s| - 1)
    && s == [Mark(|s|) + BigEndian(v, |s|)[0] % 64] + BigEndian(v, |s|)[1..]
  }

  lemma {:induction false} BigEndianOfValue(s: Bytes)
    ensures BigEndian(Value(s), |s|) == s && Value(s) < Pow256(|s|)
    decreases |s|
  {
    if s != [] {
      var front := s[..|s| - 1];
      BigEndianOfValue(front);
      assert Value(s) / 256 == Value(front) && Value(s) % 256 == s[|s| - 1];
      assert BigEndian(Value(s), |s|) == BigEndian(Value(front), |s| - 1) + [s[|s| - 1]];
      assert s == front + [s[|s| - 1]];
    }
  }

  lemma FormIsRead(s: Bytes, v: nat, rest: Bytes)
    requires IsForm(s, v)
    ensures DecodeVarint(s + rest) == Varint(v, |s|)
  {
    hide BigEndian, Value, Pow256;
    var n := |s|;
    FirstOctetSmall(v, n);
    var digits := BigEndian(v, n);
    var all := s + rest;
    assert s[0] == Mark(n) + digits[0] && all[0] == s[0];
    assert [all[0] % 64] + all[1..n] == digits;
    FormFits(v, n);
    ValueOfBigEndian(v, n);
  }

  lemma FormFits(v: nat, n: nat)
    requires n > 0 && v < 64 * Pow256(n - 1)
    ensures v < Pow256(n)
  {
  }

  lemma FirstOctetInTwo(b: Byte)
    ensures b == Mark(LengthOf(b)) + b % 64 && LengthOf(b) in {1, 2, 4, 8}
  {
  }

  lemma DigitsOfValue(masked: Bytes)
    requires masked != [] && masked[0] < 64
    ensures BigEndian(Value(masked), |masked|) == masked && Value(masked) < 64 * Pow256(|masked| - 1)
    ensures masked[0] % 64 == masked[0]
  {
    BigEndianOfValue(masked);
    ValueBelow(masked);
    hide BigEndian, Value, Pow256;
  }

  lemma MarkedIsForm(s: Bytes, masked: Bytes, v: nat)
    requires |s| == |masked| && |s| in {1, 2, 4, 8} && v < 64 * Pow256(|s| - 1)
    requires BigEndian(v, |s|) == masked && s == [Mark(|s|) + masked[0] % 64] + masked[1..]
    ensures IsForm(s, v)
  {
    hide BigEndian, Pow256, Mark;
  }

  lemma FormOfValue(s: Bytes, masked: Bytes)
    requires |s| == |masked| && |s| in {1, 2, 4, 8} && masked[0] < 64
    requires s[0] == Mark(|s|) + masked[0] && s[1..] == masked[1..]
    ensures IsForm(s, Value(masked))
  {
    hide BigEndian, Value, Pow256, Mark, IsForm;
    DigitsOfValue(masked);
    FirstAndRest(s);
    MarkedIsForm(s, masked, Value(masked));
  }

  lemma FirstAndRest(s: Bytes)
    requires s != []
    ensures s == [s[0]] + s[1..]
  {
  }

  lemma FormOf(first: Byte, rest: Bytes)
    requires |rest| + 1 == LengthOf(first)
    ensures IsForm([first] + rest, Value([first % 64] + rest))
  {
    FirstOctetInTwo(first);
    hide Mark, LengthOf, IsForm;
    FormOfValue([first] + rest, [first % 64] + rest);
  }

  lemma ReadIsForm(s: Bytes)
    requires DecodeVarint(s).Varint?
    ensures IsForm(s[..DecodeVarint(s).consumed], DecodeVarint(s).value)
  {
    var n := LengthOf(s[0]);
    FormOf(s[0], s[1..n]);
    hide IsForm, Value, LengthOf;
    assert s[..n] == [s[0]] + s[1..n];
  }

  /** An integer is read, from so many octets, if and only if they are a form of it. */
  lemma VarintExactly(s: Bytes, v: nat, n: nat)
    ensures DecodeVarint(s) == Varint(v, n) <==> n <= |s| && IsForm(s[..n], v)
  {
    hide DecodeVarint, IsForm;
    if DecodeVarint(s) == Varint(v, n) {
      ReadIsForm(s);
    }
    if n <= |s| && IsForm(s[..n], v) {
      assert s[..n] + s[n..] == s;
      FormIsRead(s[..n], v, s[n..]);
    }
  }

  /** And there is none only in octets that are fewer than the first one asks for. */
  lemma WaitsExactly(s: Bytes)
    ensures DecodeVarint(s).NotYet? <==>
      s == [] || |s| < if s[0] < 64 then 1 else if s[0] < 128 then 2 else if s[0] < 192 then 4 else 8
  {
  }

  /** The examples of the standard (section A.1 of RFC 9000). */
  lemma LongExample()
    ensures DecodeVarint([0xc2, 0x19, 0x7c, 0x5e, 0xff, 0x14, 0xe8, 0x8c]) == Varint(151_288_809_941_952_652, 8)
  {
    ValueOfEight([0x02, 0x19, 0x7c, 0x5e, 0xff, 0x14, 0xe8, 0x8c]);
    hide Value;
    var s: Bytes := [0xc2, 0x19, 0x7c, 0x5e, 0xff, 0x14, 0xe8, 0x8c];
    assert [s[0] % 64] + s[1..8] == [0x02, 0x19, 0x7c, 0x5e, 0xff, 0x14, 0xe8, 0x8c];
  }

  lemma ShorterExamples()
    ensures DecodeVarint([0x9d, 0x7f, 0x3e, 0x7d]) == Varint(494_878_333, 4)
    ensures DecodeVarint([0x7b, 0xbd]) == Varint(15_293, 2)
    ensures DecodeVarint([0x25]) == Varint(37, 1) && DecodeVarint([0x40, 0x25]) == Varint(37, 2)
  {
    ValueOfFour([0x1d, 0x7f, 0x3e, 0x7d]);
    ValueOfTwo([0x3b, 0xbd]);
    ValueOfTwo([0x00, 0x25]);
    var one: Bytes := [0x25];
    assert one[..0] == [] && Value([]) == 0 && Value(one) == 37;
    hide Value;
    var b: Bytes, c: Bytes, e: Bytes := [0x9d, 0x7f, 0x3e, 0x7d], [0x7b, 0xbd], [0x40, 0x25];
    assert [b[0] % 64] + b[1..4] == [0x1d, 0x7f, 0x3e, 0x7d];
    assert [c[0] % 64] + c[1..2] == [0x3b, 0xbd];
    assert [one[0] % 64] + one[1..1] == one;
    assert [e[0] % 64] + e[1..2] == [0x00, 0x25];
  }

  lemma ValueOfTwo(s: Bytes)
    requires |s| == 2
    ensures Value(s) == 0x100 * (s[0] as int) + s[1]
  {
    assert s[..1][..0] == [] && s[..1][0] == s[0];
    assert Value([]) == 0;
    assert Value(s[..1]) == s[0];
  }

  lemma ValueOfFour(s: Bytes)
    requires |s| == 4
    ensures Value(s) == 0x100_0000 * (s[0] as int) + 0x1_0000 * (s[1] as int) + 0x100 * (s[2] as int) + s[3]
  {
    ValueOfTwo(s[..2]);
    assert s[..3][..2] == s[..2];
    assert Value(s[..3]) == 256 * Value(s[..2]) + s[2];
  }

  lemma ValueOfEight(s: Bytes)
    requires |s| == 8
    ensures Value(s) == 0x1_0000_0000 * Value(s[..4])
                        + 0x100_0000 * (s[4] as int) + 0x1_0000 * (s[5] as int) + 0x100 * (s[6] as int) + s[7]
    ensures Value(s[..4]) == 0x100_0000 * (s[0] as int) + 0x1_0000 * (s[1] as int) + 0x100 * (s[2] as int) + s[3]
  {
    ValueOfFour(s[..4]);
    assert s[..5][..4] == s[..4] && s[..6][..5] == s[..5] && s[..7][..6] == s[..6];
    assert Value(s[..5]) == 256 * Value(s[..4]) + s[4];
    assert Value(s[..6]) == 256 * Value(s[..5]) + s[5];
    assert Value(s[..7]) == 256 * Value(s[..6]) + s[6];
  }

  // ----- frames

  /** A kind and a length in any forms, and the payload. */
  ghost predicate IsFrame(s: Bytes, f: Frame, a: Bytes, b: Bytes) {
    IsForm(a, f.kind) && IsForm(b, |f.payload|) && s == a + b + f.payload
  }

  lemma WrittenFrameIsRead(f: Frame, a: Bytes, b: Bytes, rest: Bytes)
    requires IsForm(a, f.kind) && IsForm(b, |f.payload|)
    ensures ParseFrame(a + b + f.payload + rest) == Parsed(f, |a| + |b| + |f.payload|)
  {
    hide DecodeVarint, IsForm;
    var s := a + b + f.payload + rest;
    assert s == a + (b + f.payload + rest) && s[|a|..] == b + (f.payload + rest);
    FormIsRead(a, f.kind, b + f.payload + rest);
    FormIsRead(b, |f.payload|, f.payload + rest);
    assert s[|a| + |b|..|a| + |b| + |f.payload|] == f.payload;
  }

  /** A frame is found at the front of some octets if and only if they start with it, in whatever
      forms its two numbers are written. */
  lemma FrameExactly(s: Bytes, f: Frame, n: nat)
    ensures ParseFrame(s) == Parsed(f, n) <==> n <= |s| && exists a, b :: IsFrame(s[..n], f, a, b)
  {
    hide DecodeVarint, IsForm;
    if ParseFrame(s) == Parsed(f, n) {
      var kindSize: nat := DecodeVarint(s).consumed;
      var lengthSize: nat := DecodeVarint(s[kindSize..]).consumed;
      ReadIsForm(s);
      ReadIsForm(s[kindSize..]);
      var a, b := s[..kindSize], s[kindSize..][..lengthSize];
      FrameInParts(s, kindSize, lengthSize, |f.payload|);
      assert IsFrame(s[..n], f, a, b);
    }
    if n <= |s| && exists a, b :: IsFrame(s[..n], f, a, b) {
      var a, b :| IsFrame(s[..n], f, a, b);
      assert s == a + b + f.payload + s[n..];
      WrittenFrameIsRead(f, a, b, s[n..]);
    }
  }

  lemma FrameInParts(s: Bytes, a: nat, b: nat, c: nat)
    requires a + b + c <= |s|
    ensures s[..a + b + c] == s[..a] + s[a..][..b] + s[a + b..a + b + c]
  {
  }

  // ----- settings

  /** An identifier and a value, in any forms. */
  predicate IsSetting(p: (Bytes, Bytes), setting: Setting) {
    IsForm(p.0, setting.identifier) && IsForm(p.1, setting.value)
  }

  function Joined(parts: seq<(Bytes, Bytes)>): Bytes {
    if parts == [] then [] else parts[0].0 + parts[0].1 + Joined(parts[1..])
  }

  predicate AreSettings(parts: seq<(Bytes, Bytes)>, settings: seq<Setting>) {
    |parts| == |settings| && forall i :: 0 <= i < |parts| ==> IsSetting(parts[i], settings[i])
  }

  /** What is left behind some settings: nothing; a part of an identifier; or an identifier and a part
      of a value. */
  predicate IsEnd(r: Result<seq<Setting>, FrameError>, settings: seq<Setting>, tail: Bytes) {
    match r
    case Ok(all) => tail == [] && all == settings
    case Err(IncompleteIdentifier) => tail != [] && DecodeVarint(tail).NotYet?
    case Err(IncompleteValue) =>
      && DecodeVarint(tail).Varint?
      && DecodeVarint(tail[DecodeVarint(tail).consumed..]).NotYet?
    case Err(VarintTooLarge) => false
  }

  ghost predicate IsPayload(s: Bytes, r: Result<seq<Setting>, FrameError>, parts: seq<(Bytes, Bytes)>,
      settings: seq<Setting>, tail: Bytes) {
    AreSettings(parts, settings) && s == Joined(parts) + tail && IsEnd(r, settings, tail)
  }

  lemma SettingIsRead(p: (Bytes, Bytes), setting: Setting, rest: Bytes)
    requires IsSetting(p, setting)
    ensures FirstSetting(p.0 + p.1 + rest) == Ok((setting, |p.0| + |p.1|))
    ensures (p.0 + p.1 + rest)[|p.0| + |p.1|..] == rest && p.0 != []
  {
    hide DecodeVarint, IsForm;
    var s := p.0 + p.1 + rest;
    assert s == p.0 + (p.1 + rest) && s[|p.0|..] == p.1 + rest;
    FormIsRead(p.0, setting.identifier, p.1 + rest);
    FormIsRead(p.1, setting.value, rest);
    assert |p.0| > 0 by { FormIsNotEmpty(p.0, setting.identifier); }
  }

  lemma FormIsNotEmpty(s: Bytes, v: nat)
    requires IsForm(s, v)
    ensures s != []
  {
  }

  /** The result for the settings behind the first. */
  function Later(r: Result<seq<Setting>, FrameError>, settings: seq<Setting>): Result<seq<Setting>, FrameError> {
    match r case Ok(_) => Ok(settings) case Err(e) => Err(e)
  }

  lemma {:induction false} PayloadIsRead(s: Bytes, r: Result<seq<Setting>, FrameError>, parts: seq<(Bytes, Bytes)>,
      settings: seq<Setting>, tail: Bytes)
    requires IsPayload(s, r, parts, settings, tail)
    ensures ParseSettings(s) == r
    decreases |parts|
  {
    if parts == [] {
      hide DecodeVarint, IsSetting;
      assert s == tail;
    } else {
      var rest := Joined(parts[1..]) + tail;
      assert s == parts[0].0 + parts[0].1 + rest;
      assert IsSetting(parts[0], settings[0]);
      LaterSettings(r, parts, settings, tail);
      hide IsEnd, AreSettings, IsSetting, FirstSetting, Later;
      SettingIsRead(parts[0], settings[0], rest);
      PayloadIsRead(rest, Later(r, settings[1..]), parts[1..], settings[1..], tail);
      assert ParseSettings(s) == Prefixed([settings[0]], Later(r, settings[1..]));
    }
  }

  lemma LaterSettings(r: Result<seq<Setting>, FrameError>, parts: seq<(Bytes, Bytes)>, settings: seq<Setting>,
      tail: Bytes)
    requires parts != [] && AreSettings(parts, settings) && IsEnd(r, settings, tail)
    ensures AreSettings(parts[1..], settings[1..]) && IsEnd(Later(r, settings[1..]), settings[1..], tail)
    ensures Prefixed([settings[0]], Later(r, settings[1..])) == r
  {
    hide DecodeVarint, IsSetting;
    assert [settings[0]] + settings[1..] == settings;
  }

  lemma {:induction false} ReadIsPayload(s: Bytes)
      returns (parts: seq<(Bytes, Bytes)>, settings: seq<Setting>, tail: Bytes)
    ensures IsPayload(s, ParseSettings(s), parts, settings, tail)
    decreases |s|
  {
    hide DecodeVarint, IsForm;
    if s == [] || FirstSetting(s).Err? {
      parts, settings, tail := [], [], s;
      assert [] + s == s;
    } else {
      var used := FirstSetting(s).value.1;
      var first := DecodeVarint(s).consumed;
      var p := (s[..first], s[first..used]);
      ReadIsForm(s);
      ReadIsForm(s[first..]);
      assert s[first..][..used - first] == s[first..used];
      assert IsSetting(p, FirstSetting(s).value.0);
      var others, more;
      others, more, tail := ReadIsPayload(s[used..]);
      parts, settings := [p] + others, [FirstSetting(s).value.0] + more;
      assert parts[1..] == others && settings[1..] == more;
      assert s == p.0 + p.1 + s[used..];
      JoinedMore(p, others, tail);
      hide FirstSetting, IsSetting;
      MoreSettings(p, others, FirstSetting(s).value.0, more);
    }
  }

  lemma JoinedMore(p: (Bytes, Bytes), others: seq<(Bytes, Bytes)>, tail: Bytes)
    ensures p.0 + p.1 + (Joined(others) + tail) == Joined([p] + others) + tail
  {
    assert ([p] + others)[1..] == others;
  }

  lemma MoreSettings(p: (Bytes, Bytes), parts: seq<(Bytes, Bytes)>, setting: Setting, settings: seq<Setting>)
    requires IsSetting(p, setting) && AreSettings(parts, settings)
    ensures AreSettings([p] + parts, [setting] + settings)
  {
    hide IsSetting;
  }

  /** A payload reads as these settings, or fails with this error, if and only if it is written so. */
  lemma SettingsExactly(s: Bytes, r: Result<seq<Setting>, FrameError>)
    ensures ParseSettings(s) == r <==> exists parts, settings, tail :: IsPayload(s, r, parts, settings, tail)
  {
    hide IsPayload, ParseSettings;
    var parts, settings, tail := ReadIsPayload(s);
    if parts, settings, tail :| IsPayload(s, r, parts, settings, tail) {
      PayloadIsRead(s, r, parts, settings, tail);
    }
  }
}
