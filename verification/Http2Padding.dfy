/** When a payload is not as its flags say: the stream is reset with PROTOCOL_ERROR for this and, of a
    frame that is not refused for its stream, for nothing else (sections 6.1 and 6.2 of RFC 9113). */
module Http2Padding {
  import opened Wrappers
  import opened Octets
  import opened HpackTable
  import opened Http2Frame
  import HpackBlocks
  import opened Http2Translation
  import opened Http2Session
  import opened Http2Answers
  import opened Http2Payloads
  import opened Http2Refusals
  import opened Http2Completion

  lemma OneCode(s: Session, o: Outcome, id: U32, a: Byte, b: Byte, t: Table, u: Table)
    requires ResetWith(s, o, id, a, t) && ResetWith(s, o, id, b, u)
    ensures a == b
  {
    hide WireOfAll, ValidFrame, FramesIn;
    assert [Frame(RST_STREAM, 0, id, [0, 0, 0, a])][0] == [Frame(RST_STREAM, 0, id, [0, 0, 0, b])][0];
    assert [0, 0, 0, a][3] == [0, 0, 0, b][3];
  }

  lemma FailedIsNotReset(s: Session, o: Outcome, text: string, id: U32, a: Byte, b: Byte)
    requires FailedWith(s, o, a, text)
    ensures !ResetWith(s, o, id, b, s.table)
  {
    hide Reads;
  }

  lemma DeliveredIsNotReset(s: Session, o: Outcome, id: U32, code: Byte, fields: seq<HeaderField>, body: Bytes,
      t: Table)
    requires Delivers(o.result, id, fields, body)
    ensures !ResetWith(s, o, id, code, t)
  {
    hide Reads, Built;
    if Built(fields, body).Some? {
      assert o.result.completed == Some(Completed(id, Built(fields, body).value));
    }
  }

  lemma RightPayload(f: Frame) returns (data: Bytes)
    requires PaddedRight(f)
    ensures Carries(f, data)
  {
    UnpaddedExactly(f);
    PayloadCarried(f);
    data := Unpadded(f).value;
  }

  /** DATA of an open stream: RST_STREAM with PROTOCOL_ERROR if and only if PADDED is set and the payload
      is no pad length, data and as much padding. */
  lemma DataPaddingExactly(s: Session, f: Frame, maxRequestBytes: nat)
    requires ValidFrame(f, DEFAULT_MAX_FRAME_SIZE) && f.kind == DATA && s.pending.None?
    requires f.streamId in s.streams && s.streams[f.streamId].headersReceived && s.streams[f.streamId].lifecycle == Open
    ensures ResetWith(s, HandleFrame(s, f, maxRequestBytes), f.streamId, 0x1, s.table) <==> !PaddedRight(f)
  {
    hide ResetWith, FailedWith, Delivers, HandleFrame, PaddedRight, Carries, ValidFrame;
    DataRefused(s, f, maxRequestBytes);
    if PaddedRight(f) {
      var data := RightPayload(f);
      DataIsNotReset(s, f, data, maxRequestBytes);
    }
  }

  lemma DataIsNotReset(s: Session, f: Frame, data: Bytes, maxRequestBytes: nat)
    requires ValidFrame(f, DEFAULT_MAX_FRAME_SIZE) && f.kind == DATA && s.pending.None? && Carries(f, data)
    requires f.streamId in s.streams && s.streams[f.streamId].headersReceived && s.streams[f.streamId].lifecycle == Open
    ensures !ResetWith(s, HandleFrame(s, f, maxRequestBytes), f.streamId, 0x1, s.table)
  {
    hide ResetWith, FailedWith, Delivers, HandleFrame, Carries, ValidFrame;
    var o, stream := HandleFrame(s, f, maxRequestBytes), s.streams[f.streamId];
    DataLimited(s, f, data, maxRequestBytes);
    if |data| > s.connectionWindow || |data| > stream.inboundWindow {
      FailedIsNotReset(s, o, "HTTP/2 inbound flow-control window exceeded", f.streamId, 0x3, 0x1);
    } else if |stream.body| + |data| > maxRequestBytes {
      if ResetWith(s, o, f.streamId, 0x1, s.table) {
        OneCode(s, o, f.streamId, 0x1, 0xb, s.table, s.table);
      }
    } else {
      DataDelivers(s, f, data, maxRequestBytes);
      if f.flags % 2 == 1 {
        DeliveredIsNotReset(s, o, f.streamId, 0x1, stream.headers, stream.body + data, s.table);
      } else {
        StoredIsNotReset(s, o, f.streamId, 0x1, s.table);
      }
    }
  }

  lemma StoredIsNotReset(s: Session, o: Outcome, id: U32, code: Byte, t: Table)
    requires id in o.session.streams || o.session.pending.Some?
    ensures !ResetWith(s, o, id, code, t)
  {
    hide Reads;
  }

  /** HEADERS of a new stream: RST_STREAM with PROTOCOL_ERROR, whatever the table is then, if and only if
      the padding is not right or, with PRIORITY, five octets are not there. */
  lemma HeadersPaddingExactly(s: Session, f: Frame, maxRequestBytes: nat)
    requires ValidFrame(f, DEFAULT_MAX_FRAME_SIZE) && f.kind == HEADERS && s.pending.None?
    requires f.streamId % 2 == 1 && f.streamId > s.lastClientStreamId && f.streamId !in s.streams
    ensures (exists t :: ResetWith(s, HandleFrame(s, f, maxRequestBytes), f.streamId, 0x1, t)) <==> !HeadersRight(f)
  {
    hide ResetWith, FailedWith, HandleFrame, HeadersRight, CarriesBlock, HeaderBlockPayload, ValidFrame;
    HeadersRefused(s, f, maxRequestBytes);
    if HeadersRight(f) {
      HeadersPayloadExactly(f);
      PayloadCarried(f);
      forall t
        ensures !ResetWith(s, HandleFrame(s, f, maxRequestBytes), f.streamId, 0x1, t)
      {
        HeadersAreNotReset(s, f, HeaderBlockPayload(f).value, maxRequestBytes, t);
      }
    }
  }

  lemma HeadersAreNotReset(s: Session, f: Frame, block: Bytes, maxRequestBytes: nat, t: Table)
    requires ValidFrame(f, DEFAULT_MAX_FRAME_SIZE) && f.kind == HEADERS && s.pending.None? && CarriesBlock(f, block)
    requires f.streamId % 2 == 1 && f.streamId > s.lastClientStreamId && f.streamId !in s.streams
    ensures !ResetWith(s, HandleFrame(s, f, maxRequestBytes), f.streamId, 0x1, t)
  {
    hide ResetWith, FailedWith, Delivers, HandleFrame, CarriesBlock, DecodeHeaders, HpackBlocks.DecodeBlock;
    var o := HandleFrame(s, f, maxRequestBytes);
    HeadersTaken(s, f, block, maxRequestBytes);
    if |block| > maxRequestBytes {
      if ResetWith(s, o, f.streamId, 0x1, t) {
        OneCode(s, o, f.streamId, 0x1, 0xb, t, s.table);
      }
    } else if f.flags / 0x4 % 2 == 0 {
      StoredIsNotReset(s, o, f.streamId, 0x1, t);
    } else {
      BlockIsNotReset(s, f.streamId, f.flags % 2 == 1, block, t);
    }
  }

  lemma BlockIsNotReset(s: Session, id: U32, endStream: bool, block: Bytes, t: Table)
    requires IsStreamId(id) && s.pending.None? && id !in s.streams
    ensures !ResetWith(s, DecodeHeaders(s, id, endStream, block), id, 0x1, t)
  {
    hide ResetWith, Delivers, DecodeHeaders, HpackBlocks.DecodeBlock;
    var o := DecodeHeaders(s, id, endStream, block);
    BlockRefused(s, id, endStream, block);
    var decoded := HpackBlocks.DecodeBlock(block, s.table, false);
    if decoded.headers.Err? {
      if ResetWith(s, o, id, 0x1, t) {
        OneCode(s, o, id, 0x1, 0x9, t, decoded.table);
      }
    } else {
      BlockDelivers(s, id, endStream, block, decoded.headers.value);
      if endStream {
        DeliveredIsNotReset(s, o, id, 0x1, decoded.headers.value, [], t);
      } else {
        StoredIsNotReset(s, o, id, 0x1, t);
      }
    }
  }
}
