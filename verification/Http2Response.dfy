/** Printing a response as HTTP/2 frames (sections 6.1, 6.2 and 8.1 of RFC 9113). */
module Http2Response {
  import opened Wrappers
  import opened Octets
  import opened HpackErrors
  import opened HpackTable
  import opened HpackBlocks
  import opened HpackInteger
  import opened Hpack
  import opened Http2Frame
  import opened Http2Session

  datatype Response = Response(status: int, headers: map<Bytes, Bytes>, body: Bytes)

  datatype Options = Options(serverHeader: bool, serverName: Bytes, defaults: map<Bytes, Bytes>)

  datatype ResponseError = BlockError(hpack: HpackError) | RefusedFrame(frame: FrameError)

  // ----- defaults

  function ServerName(options: Options): Bytes {
    if options.serverName == [] then Ascii("Rimau Web Server") else options.serverName
  }

  /** `apply_response_defaults`: headers that are already there win over the defaults, and
      content-length and server are set last. */
  function WithDefaults(response: Response, options: Options): Response {
    var defaulted := if response.status != 101 then options.defaults + response.headers else response.headers;
    var sized :=
      if response.status != 101 && response.status != 204 && Ascii("transfer-encoding") !in defaulted
      then defaulted[Ascii("content-length") := Digits(|response.body|, Decimal)]
      else defaulted;
    response.(headers := if options.serverHeader then sized[Ascii("server") := ServerName(options)]
                         else sized - {Ascii("server")})
  }

  predicate MayHaveBody(status: int) {
    status >= 200 && status != 204 && status != 304
  }

  // ----- header fields

  function StatusText(status: int): Bytes {
    if status < 0 then [45] + Digits(-status, Decimal) else Digits(status, Decimal)
  }

  predicate ForbiddenInResponse(name: Bytes) {
    || name == Ascii("connection") || name == Ascii("keep-alive") || name == Ascii("proxy-authenticate")
    || name == Ascii("proxy-authorization") || name == Ascii("te") || name == Ascii("trailer")
    || name == Ascii("transfer-encoding") || name == Ascii("upgrade")
  }

  /** Line ends become spaces, and the other controls below 0x20 but TAB are dropped. */
  function Sanitized(value: Bytes): Bytes {
    if value == [] then []
    else
      var rest := Sanitized(value[1..]);
      if value[0] == CR || value[0] == LF then [SPACE] + rest
      else if value[0] == TAB || value[0] >= 0x20 then [value[0]] + rest
      else rest
  }

  predicate IsSent(name: Bytes) {
    ValidHeaderName(Lower(name)) && !ForbiddenInResponse(Lower(name))
  }

  /** The fields for the entries of the header map, in the order in which it is run through. */
  function FieldsOf(order: seq<Bytes>, headers: map<Bytes, Bytes>): seq<HeaderField>
    requires forall i :: 0 <= i < |order| ==> order[i] in headers
  {
    if order == [] then []
    else if IsSent(order[0])
    then [HeaderField(Lower(order[0]), Sanitized(headers[order[0]]))] + FieldsOf(order[1..], headers)
    else FieldsOf(order[1..], headers)
  }

  /** `order` names every entry once. */
  ghost predicate Enumerates(order: seq<Bytes>, headers: map<Bytes, Bytes>) {
    && (forall name :: name in headers <==> name in order)
    && (forall i, j :: 0 <= i < j < |order| ==> order[i] != order[j])
  }

  function AllFields(status: int, order: seq<Bytes>, headers: map<Bytes, Bytes>): seq<HeaderField>
    requires forall i :: 0 <= i < |order| ==> order[i] in headers
  {
    [HeaderField(Ascii(":status"), StatusText(status))] + FieldsOf(order, headers)
  }

  // ----- frames

  function HeadersFrame(streamId: U32, block: Bytes, endStream: bool): Frame {
    Frame(HEADERS, if endStream then 0x5 else 0x4, streamId, block)
  }

  function DataFrame(streamId: U32, payload: Bytes, endStream: bool): Frame {
    Frame(DATA, if endStream then 0x1 else 0, streamId, payload)
  }

  /** The octets of the DATA frames for what is left of a body. */
  function DataWire(streamId: U32, body: Bytes): Bytes
    requires IsStreamId(streamId)
    decreases |body|
  {
    if body == [] then []
    else if |body| <= DEFAULT_MAX_FRAME_SIZE then FrameWire(DataFrame(streamId, body, true))
    else FrameWire(DataFrame(streamId, body[..DEFAULT_MAX_FRAME_SIZE], false))
         + DataWire(streamId, body[DEFAULT_MAX_FRAME_SIZE..])
  }

  /** The octets of a response with these fields and this body, or why it cannot be printed. */
  ghost function Printed(streamId: U32, fields: seq<HeaderField>, body: Bytes): Result<Bytes, ResponseError> {
    match EncodedBlock(fields)
    case Err(e) => Err(BlockError(e))
    case Ok(block) =>
      match SerializeFrame(HeadersFrame(streamId, block, body == []), DEFAULT_MAX_FRAME_SIZE)
      case Err(e) => Err(RefusedFrame(e))
      case Ok(head) => Ok(head + DataWire(streamId, body))
  }

  // ----- the loops

  lemma {:induction false} SanitizedMore(value: Bytes, b: Byte)
    ensures Sanitized(value + [b]) == Sanitized(value) + Sanitized([b])
  {
    if value == [] {
      assert value + [b] == [b];
    } else {
      assert (value + [b])[1..] == value[1..] + [b];
      SanitizedMore(value[1..], b);
    }
  }

  method SanitizeValue(value: Bytes) returns (sanitized: Bytes)
    ensures sanitized == Sanitized(value)
  {
    sanitized := [];
    for i := 0 to |value|
      invariant sanitized == Sanitized(value[..i])
    {
      assert value[..i + 1] == value[..i] + [value[i]];
      SanitizedMore(value[..i], value[i]);
      if value[i] == CR || value[i] == LF {
        sanitized := sanitized + [SPACE];
      } else if value[i] == TAB || value[i] >= 0x20 {
        sanitized := sanitized + [value[i]];
      }
    }
    assert value[..|value|] == value;
  }

  lemma {:induction false} FieldsOfMore(order: seq<Bytes>, name: Bytes, headers: map<Bytes, Bytes>)
    requires name in headers && forall i :: 0 <= i < |order| ==> order[i] in headers
    ensures FieldsOf(order + [name], headers) == FieldsOf(order, headers) + FieldsOf([name], headers)
  {
    hide IsSent, Sanitized;
    if order == [] {
      assert order + [name] == [name];
    } else {
      assert (order + [name])[1..] == order[1..] + [name];
      FieldsOfMore(order[1..], name, headers);
    }
  }

  /** The loop over the header map, in no particular order. */
  method CollectFields(status: int, headers: map<Bytes, Bytes>) returns (fields: seq<HeaderField>)
    ensures exists order :: Enumerates(order, headers) && fields == AllFields(status, order, headers)
  {
    hide Sanitized, Digits, IsSent;
    fields := [HeaderField(Ascii(":status"), StatusText(status))];
    ghost var order: seq<Bytes> := [];
    var left := headers.Keys;
    while left != {}
      invariant left <= headers.Keys
      invariant forall name :: name in headers <==> name in left || name in order
      invariant forall i :: 0 <= i < |order| ==> order[i] !in left
      invariant forall i, j :: 0 <= i < j < |order| ==> order[i] != order[j]
      invariant fields == AllFields(status, order, headers)
      decreases |left|
    {
      var name :| name in left;
      FieldsOfMore(order, name, headers);
      if IsSent(name) {
        var value := SanitizeValue(headers[name]);
        fields := fields + [HeaderField(Lower(name), value)];
      }
      assert forall n :: n in order + [name] <==> n in order || n == name;
      left, order := left - {name}, order + [name];
    }
    assert Enumerates(order, headers);
  }

  /** The loop over the body. */
  method PrintData(streamId: U32, body: Bytes) returns (output: Bytes)
    requires IsStreamId(streamId)
    ensures output == DataWire(streamId, body)
  {
    hide FrameWire;
    output := [];
    var offset := 0;
    assert body[0..] == body;
    while offset < |body|
      invariant offset <= |body|
      invariant output + DataWire(streamId, body[offset..]) == DataWire(streamId, body)
    {
      var remaining := |body| - offset;
      var chunkSize := if remaining < DEFAULT_MAX_FRAME_SIZE then remaining else DEFAULT_MAX_FRAME_SIZE;
      var endStream := offset + chunkSize == |body|;
      ghost var rest := body[offset..];
      assert rest[..chunkSize] == body[offset..offset + chunkSize] && rest[chunkSize..] == body[offset + chunkSize..];
      var frame := FrameWire(DataFrame(streamId, body[offset..offset + chunkSize], endStream));
      assert output + (frame + DataWire(streamId, body[offset + chunkSize..]))
             == output + frame + DataWire(streamId, body[offset + chunkSize..]);
      if endStream {
        assert body[offset + chunkSize..] == [] && rest == body[offset..offset + chunkSize] && frame + [] == frame;
      }
      output := output + frame;
      offset := offset + chunkSize;
    }
    assert body[offset..] == [] && output + [] == output;
  }

  /** `serialize_response`. */
  method SerializeResponse(streamId: U32, input: Response, includeBody: bool, options: Options)
    returns (r: Result<Bytes, ResponseError>)
    ensures exists order ::
              && Enumerates(order, WithDefaults(input, options).headers)
              && r == Printed(streamId, AllFields(input.status, order, WithDefaults(input, options).headers),
                              if includeBody && MayHaveBody(input.status) then input.body else [])
  {
    hide WithDefaults, AllFields, EncodedBlock, FrameWire, MayHaveBody;
    var response := WithDefaults(input, options);
    assert response.status == input.status && response.body == input.body by { DefaultsKeep(input, options); }
    var withBody := includeBody && MayHaveBody(response.status);
    var fields := CollectFields(response.status, response.headers);
    ghost var order :| Enumerates(order, response.headers)
        && fields == AllFields(response.status, order, response.headers);
    var block := EncodeHeaderBlock(fields);
    if block.Err? {
      r := Err(BlockError(block.error));
      return;
    }
    var endStream := !withBody || response.body == [];
    var head := SerializeFrame(HeadersFrame(streamId, block.value, endStream), DEFAULT_MAX_FRAME_SIZE);
    if head.Err? {
      r := Err(RefusedFrame(head.error));
      return;
    }
    if endStream {
      assert head.value + [] == head.value;
      r := Ok(head.value);
      return;
    }
    var data := PrintData(streamId, response.body);
    r := Ok(head.value + data);
  }

  /** What the defaults come to, name by name: a header that is there wins over a default one,
      except that the length, where there may be one, is that of the body, and that the server
      header is the configured one or absent. */
  lemma DefaultsMean(input: Response, options: Options, name: Bytes)
    requires |input.body| <= SIZE_MAX
    ensures var headers := WithDefaults(input, options).headers;
      var defaulted := input.status != 101 && name in options.defaults;
      if name == Ascii("server") then
        if options.serverHeader then name in headers && headers[name] == ServerName(options) else name !in headers
      else if name == Ascii("content-length") && input.status != 101 && input.status != 204
              && Ascii("transfer-encoding") !in options.defaults + input.headers then
        name in headers && SizeOf(headers[name], Decimal) == Some(|input.body|)
      else
        && (name in headers <==> name in input.headers || defaulted)
        && (name in input.headers ==> headers[name] == input.headers[name])
        && (name !in input.headers && defaulted ==> headers[name] == options.defaults[name])
  {
    DigitsRoundTrip(|input.body|, Decimal);
    assert |Ascii("server")| != |Ascii("content-length")|;
    hide Digits, SizeOf;
  }

  lemma DefaultsKeep(input: Response, options: Options)
    ensures WithDefaults(input, options).status == input.status && WithDefaults(input, options).body == input.body
  {
  }

  // ----- what the client reads back

  /** DATA frames of one stream, of at most the default size, whose payloads make up `body`,
      with END_STREAM on the last one only. */
  ghost predicate CarryBody(frames: seq<Frame>, streamId: U32, body: Bytes) {
    && Payloads(frames) == body
    && (forall i :: 0 <= i < |frames| ==>
          && frames[i].kind == DATA && frames[i].streamId == streamId
          && 0 < |frames[i].payload| <= DEFAULT_MAX_FRAME_SIZE
          && DataPayload(frames[i]) == Some(frames[i].payload)
          && (EndsStream(frames[i]) <==> i == |frames| - 1))
  }

  lemma {:induction false} DataReadBack(streamId: U32, body: Bytes)
    requires IsStreamId(streamId)
    ensures CarryBody(FramesIn(DataWire(streamId, body)), streamId, body)
    ensures FramesIn(DataWire(streamId, body)) == [] <==> body == []
    decreases |body|
  {
    hide FrameWire;
    if body == [] {
      assert FramesIn([]) == [];
    } else if |body| <= DEFAULT_MAX_FRAME_SIZE {
      var frame := DataFrame(streamId, body, true);
      FramesInAfter(frame, []);
      assert FrameWire(frame) + [] == FrameWire(frame) && FramesIn([]) == [] && [frame] + [] == [frame];
      LastCarries(frame);
    } else {
      var frame := DataFrame(streamId, body[..DEFAULT_MAX_FRAME_SIZE], false);
      var rest := body[DEFAULT_MAX_FRAME_SIZE..];
      DataReadBack(streamId, rest);
      FramesInAfter(frame, DataWire(streamId, rest));
      CarryMore(frame, FramesIn(DataWire(streamId, rest)), streamId, rest);
      assert frame.payload + rest == body;
    }
  }

  lemma LastCarries(frame: Frame)
    requires frame.kind == DATA && frame.flags == 1 && 0 < |frame.payload| <= DEFAULT_MAX_FRAME_SIZE
    ensures CarryBody([frame], frame.streamId, frame.payload)
  {
    assert [frame][1..] == [] && Payloads([]) == [] && frame.payload + [] == frame.payload;
  }

  lemma CarryMore(frame: Frame, frames: seq<Frame>, streamId: U32, body: Bytes)
    requires frames != [] && CarryBody(frames, streamId, body)
    requires frame.kind == DATA && frame.flags == 0 && frame.streamId == streamId
    requires 0 < |frame.payload| <= DEFAULT_MAX_FRAME_SIZE
    ensures CarryBody([frame] + frames, streamId, frame.payload + body)
  {
    assert ([frame] + frames)[1..] == frames;
  }

  /** The frames of a printed response, in order: one HEADERS frame whose block decodes, with
      any dynamic table, to the header list, and then the body; exactly the last frame ends
      the stream. */
  lemma ResponseReadBack(streamId: U32, fields: seq<HeaderField>, body: Bytes, table: Table)
    requires Printed(streamId, fields, body).Ok?
    ensures var frames := FramesIn(Printed(streamId, fields, body).value);
      && frames != []
      && frames[0].kind == HEADERS && frames[0].streamId == streamId && EndsHeaders(frames[0])
      && (EndsStream(frames[0]) <==> body == [])
      && HeaderBlockPayload(frames[0]).Some?
      && DecodeBlock(HeaderBlockPayload(frames[0]).value, table, false) == BlockResult(Ok(fields), table)
      && CarryBody(frames[1..], streamId, body)
      && (|frames| == 1 <==> body == [])
  {
    hide FrameWire, DecodeBlock, EncodedBlock, AllCarried, CarryBody;
    var block := EncodedBlock(fields).value;
    var head := HeadersFrame(streamId, block, body == []);
    FramesInAfter(head, DataWire(streamId, body));
    DataReadBack(streamId, body);
    ShortBlockCarries(fields) by { RoomForFrames(); }
    EncoderUndoneByDecoder(fields, table);
    var frames := FramesIn(Printed(streamId, fields, body).value);
    assert frames[1..] == FramesIn(DataWire(streamId, body));
  }

  lemma RoomForFrames()
    ensures DEFAULT_MAX_FRAME_SIZE < Room(0)
  {
  }

  /** Printing succeeds exactly when the stream id is usable and the header block fits one
      frame; the block itself is refused only for a string of 2^32 octets or more. */
  lemma PrintedExactly(streamId: U32, fields: seq<HeaderField>, body: Bytes)
    ensures Printed(streamId, fields, body).Ok? <==>
            IsStreamId(streamId) && EncodedBlock(fields).Ok? && |EncodedBlock(fields).value| <= DEFAULT_MAX_FRAME_SIZE
  {
    hide EncodedBlock, FrameWire;
  }

  // ----- what the filters leave

  /** The field comes from an entry of the map whose lower-cased name may be sent. */
  predicate ComesFrom(field: HeaderField, name: Bytes, value: Bytes) {
    IsSent(name) && field == HeaderField(Lower(name), Sanitized(value))
  }

  /** Exactly the entries that may be sent are sent. */
  lemma {:induction false} SentExactly(order: seq<Bytes>, headers: map<Bytes, Bytes>, field: HeaderField)
    requires forall i :: 0 <= i < |order| ==> order[i] in headers
    ensures field in FieldsOf(order, headers) <==>
        exists i :: 0 <= i < |order| && ComesFrom(field, order[i], headers[order[i]])
  {
    hide IsSent, Sanitized;
    if order != [] {
      SentExactly(order[1..], headers, field);
      assert forall i :: 0 < i < |order| ==> order[i] == order[1..][i - 1];
      assert order[1..] == [] || order[1..][0] == order[1];
      if exists i :: 0 <= i < |order| && ComesFrom(field, order[i], headers[order[i]]) {
        var i :| 0 <= i < |order| && ComesFrom(field, order[i], headers[order[i]]);
        assert i > 0 ==> ComesFrom(field, order[1..][i - 1], headers[order[1..][i - 1]]);
      }
      if field in FieldsOf(order[1..], headers) {
        var i :| 0 <= i < |order[1..]| && ComesFrom(field, order[1..][i], headers[order[1..][i]]);
        assert ComesFrom(field, order[i + 1], headers[order[i + 1]]);
      }
      if IsSent(order[0]) && field == HeaderField(Lower(order[0]), Sanitized(headers[order[0]])) {
        assert ComesFrom(field, order[0], headers[order[0]]);
      }
    }
  }

  /** A sanitised value has no control character but TAB; an octet 0x7f is let through. */
  lemma {:induction false} SanitizedIsClean(value: Bytes, i: nat)
    requires i < |Sanitized(value)|
    ensures var b := Sanitized(value)[i]; (b in value && (b == TAB || b >= 0x20)) || b == SPACE
  {
    if value != [] {
      var head := |Sanitized(value)| - |Sanitized(value[1..])|;
      if i >= head {
        SanitizedIsClean(value[1..], i - head);
      }
    }
  }

  /** And a value without such characters is sent as it is. */
  lemma {:induction false} CleanIsKept(value: Bytes)
    ensures Sanitized(value) == value <==> forall i :: 0 <= i < |value| ==> value[i] == TAB || value[i] >= 0x20
  {
    if value != [] {
      CleanIsKept(value[1..]);
      SanitizedShrinks(value[1..]);
      assert value == [value[0]] + value[1..];
      assert forall i :: 0 < i < |value| ==> value[i] == value[1..][i - 1];
      assert forall i :: 0 <= i < |value[1..]| ==> value[1..][i] == value[i + 1];
      if Sanitized(value) == value {
        assert Sanitized(value)[0] == value[0];
        assert Sanitized(value)[1..] == value[1..];
      }
    }
  }

  lemma SanitizedShrinks(value: Bytes)
    ensures |Sanitized(value)| <= |value|
  {
  }
}
