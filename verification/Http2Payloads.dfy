/** What padding and priority come to (sections 6.1 and 6.2 of RFC 9113): nothing, where they are
    well-formed, and otherwise a reset of the stream. */
module Http2Payloads {
  import opened Wrappers
  import opened Octets
  import opened Http2Frame
  import opened Http2Session

  /** A pad length, something, and as many octets of padding. */
  function PaddedPayload(data: Bytes, pad: Bytes): Bytes
    requires |pad| < 256
  {
    [|pad|] + data + pad
  }

  lemma FlagsWithPadding(flags: Byte)
    requires flags / 0x8 % 2 == 0
    ensures flags + 0x8 < 256
    ensures (flags + 0x8) % 2 == flags % 2 && (flags + 0x8) / 0x4 % 2 == flags / 0x4 % 2
    ensures (flags + 0x8) / 0x8 % 2 == 1 && (flags + 0x8) / 0x20 % 2 == flags / 0x20 % 2
  {
    var eighths := flags / 0x8;
    assert (flags + 0x8) / 0x8 == eighths + 1 && (flags + 0x8) / 0x4 == flags / 0x4 + 2;
    assert (flags + 0x8) / 0x20 == (eighths + 1) / 4 == eighths / 4 == flags / 0x20;
    EvenShift(flags / 0x4, 1);
    EvenShift(flags, 4);
  }

  /** Padding is invisible: a DATA or HEADERS frame with it does exactly what the frame without it
      does, for all data and all padding that fit a frame, in every session. */
  lemma PaddingInvisible(s: Session, f: Frame, pad: Bytes, maxRequestBytes: nat)
    requires f.kind == DATA || f.kind == HEADERS
    requires f.flags / 0x8 % 2 == 0 && |pad| < 256 && ValidFrame(f, DEFAULT_MAX_FRAME_SIZE)
    requires 1 + |f.payload| + |pad| <= DEFAULT_MAX_FRAME_SIZE
    ensures f.flags + 0x8 < 256
    ensures var padded := Frame(f.kind, f.flags + 0x8, f.streamId, PaddedPayload(f.payload, pad));
      && ValidFrame(padded, DEFAULT_MAX_FRAME_SIZE)
      && HandleFrame(s, padded, maxRequestBytes) == HandleFrame(s, f, maxRequestBytes)
  {
    hide DecodeHeaders, CompleteStream, FailConnection, ResetStreamResult, WindowUpdates;
    FlagsWithPadding(f.flags);
    var padded := Frame(f.kind, f.flags + 0x8, f.streamId, PaddedPayload(f.payload, pad));
    assert padded.payload[1..|padded.payload| - |pad|] == f.payload;
    assert Unpadded(padded) == Some(f.payload) && Unpadded(f) == Some(f.payload);
  }

  lemma FlagsWithPriority(flags: Byte)
    requires flags / 0x20 % 2 == 0
    ensures flags + 0x20 < 256
    ensures (flags + 0x20) % 2 == flags % 2 && (flags + 0x20) / 0x4 % 2 == flags / 0x4 % 2
    ensures (flags + 0x20) / 0x8 % 2 == flags / 0x8 % 2 && (flags + 0x20) / 0x20 % 2 == 1
  {
    assert (flags + 0x20) / 0x20 == flags / 0x20 + 1;
    assert (flags + 0x20) / 0x8 == flags / 0x8 + 4 && (flags + 0x20) / 0x4 == flags / 0x4 + 8;
    EvenShift(flags / 0x8, 2);
    EvenShift(flags / 0x4, 4);
    EvenShift(flags, 16);
  }

  lemma EvenShift(n: nat, k: nat)
    ensures (n + 2 * k) % 2 == n % 2
  {
  }

  /** So are the five octets of a priority in a HEADERS frame. */
  lemma PriorityInvisible(s: Session, f: Frame, priority: Bytes, maxRequestBytes: nat)
    requires f.kind == HEADERS && f.flags / 0x8 % 2 == 0 && f.flags / 0x20 % 2 == 0 && |priority| == 5
    requires ValidFrame(f, DEFAULT_MAX_FRAME_SIZE) && 5 + |f.payload| <= DEFAULT_MAX_FRAME_SIZE
    ensures f.flags + 0x20 < 256
    ensures var g := Frame(HEADERS, f.flags + 0x20, f.streamId, priority + f.payload);
      && ValidFrame(g, DEFAULT_MAX_FRAME_SIZE)
      && HandleFrame(s, g, maxRequestBytes) == HandleFrame(s, f, maxRequestBytes)
  {
    hide DecodeHeaders, CompleteStream, FailConnection, ResetStreamResult, WindowUpdates;
    FlagsWithPriority(f.flags);
    assert (priority + f.payload)[5..] == f.payload;
  }

  // ----- payloads that are not of this form

  /** With PADDED the payload is a padded one, of some data. */
  ghost predicate PaddedRight(f: Frame) {
    f.flags / 0x8 % 2 == 1 ==> exists data, pad :: |pad| < 256 && f.payload == PaddedPayload(data, pad)
  }

  /** The same, and with PRIORITY the data starts with five octets. */
  ghost predicate HeadersRight(f: Frame) {
    if f.flags / 0x8 % 2 == 1 then
      exists data, pad ::
        |pad| < 256 && f.payload == PaddedPayload(data, pad) && (f.flags / 0x20 % 2 == 1 ==> |data| >= 5)
    else f.flags / 0x20 % 2 == 1 ==> |f.payload| >= 5
  }

  lemma UnpaddedExactly(f: Frame)
    ensures Unpadded(f).Some? <==> PaddedRight(f)
    ensures f.flags / 0x8 % 2 == 1 && Unpadded(f).Some? ==>
        exists pad :: |pad| < 256 && f.payload == PaddedPayload(Unpadded(f).value, pad)
  {
    if f.flags / 0x8 % 2 == 1 && Unpadded(f).Some? {
      var n := |f.payload|;
      var data, pad := Unpadded(f).value, f.payload[n - f.payload[0]..];
      assert f.payload == PaddedPayload(data, pad);
    }
    if f.flags / 0x8 % 2 == 1 && PaddedRight(f) {
      var data, pad :| |pad| < 256 && f.payload == PaddedPayload(data, pad);
      assert f.payload[0] == |pad|;
    }
  }

  lemma SamePadding(data: Bytes, pad: Bytes, other: Bytes, last: Bytes)
    requires |pad| < 256 && |last| < 256 && PaddedPayload(data, pad) == PaddedPayload(other, last)
    ensures data == other
  {
    var s := PaddedPayload(data, pad);
    assert s[0] == |pad| == |last|;
    assert s[1..|s| - |pad|] == data && s[1..|s| - |pad|] == other;
  }

  lemma HeadersPayloadExactly(f: Frame)
    ensures HeaderBlockPayload(f).Some? <==> HeadersRight(f)
  {
    UnpaddedExactly(f);
    if f.flags / 0x8 % 2 == 1 {
      if Unpadded(f).Some? {
        var pad :| |pad| < 256 && f.payload == PaddedPayload(Unpadded(f).value, pad);
        forall data, last | |last| < 256 && f.payload == PaddedPayload(data, last)
          ensures data == Unpadded(f).value
        {
          SamePadding(data, last, Unpadded(f).value, pad);
        }
        hide Unpadded;
      }
    }
  }
}
