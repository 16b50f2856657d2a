/** Which fields and which body of a response the client gets to read, in terms of the response and
    the options (sections 8.2.2 and 8.3.2 of RFC 9113 and section 6.4.1 of RFC 9110). */
module Http2ResponseRules {
  import opened Wrappers
  import opened Octets
  import opened HpackTable
  import opened HpackBlocks
  import opened Http2Frame
  import opened Http2Session
  import opened Http2Response

  // ----- names and values

  /** A token that is not one of eight names, in capitals or not. */
  predicate NameRule(name: Bytes) {
    && name != [] && (forall i :: 0 <= i < |name| ==> IsTokenChar(name[i]))
    && Lower(name) !in {Ascii("connection"), Ascii("keep-alive"), Ascii("proxy-authenticate"),
                        Ascii("proxy-authorization"), Ascii("te"), Ascii("trailer"), Ascii("transfer-encoding"),
                        Ascii("upgrade")}
  }

  lemma SentNamesExactly(name: Bytes)
    ensures IsSent(name) <==> NameRule(name)
  {
    forall i | 0 <= i < |name|
      ensures IsTokenChar(Lower(name)[i]) <==> IsTokenChar(name[i])
    {
    }
    hide Ascii, IsTokenChar;
    if ValidHeaderName(Lower(name)) {
      assert forall i :: 0 <= i < |name| ==> IsTokenChar(Lower(name)[i]);
    }
  }

  lemma {:induction false} SanitizedJoined(a: Bytes, b: Bytes)
    ensures Sanitized(a + b) == Sanitized(a) + Sanitized(b)
    decreases |a|
  {
    if a == [] {
      assert a + b == b;
    } else {
      assert (a + b)[1..] == a[1..] + b;
      SanitizedJoined(a[1..], b);
    }
  }

  /** Each octet of a value is treated by itself: CR and LF become a space, TAB and what is not a
      control below 0x20 stays, the rest is dropped. */
  lemma SanitizedByOctet(a: Bytes, b: Byte, c: Bytes)
    ensures Sanitized([]) == []
    ensures Sanitized(a + [b] + c) ==
            Sanitized(a) + (if b == 13 || b == 10 then [32] else if b == 9 || b >= 32 then [b] else []) + Sanitized(c)
  {
    SanitizedJoined(a + [b], c);
    SanitizedJoined(a, [b]);
    assert [b][1..] == [] && Sanitized([]) == [];
  }

  // ----- the response

  /** The field is made of an entry of the header map that may be sent. */
  ghost predicate FromEntry(field: HeaderField, headers: map<Bytes, Bytes>) {
    exists name :: name in headers && NameRule(name) && field == HeaderField(Lower(name), Sanitized(headers[name]))
  }

  /** The body that is sent: none for an informational response, 204 and 304, and to HEAD. */
  function SentBody(input: Response, includeBody: bool): Bytes {
    if includeBody && 200 <= input.status && input.status !in {204, 304} then input.body else []
  }

  lemma FieldsFromEntries(status: int, order: seq<Bytes>, headers: map<Bytes, Bytes>, field: HeaderField)
    requires Enumerates(order, headers)
    ensures field in AllFields(status, order, headers)[1..] <==> FromEntry(field, headers)
  {
    hide Sanitized, IsSent, NameRule;
    assert AllFields(status, order, headers)[1..] == FieldsOf(order, headers);
    SentExactly(order, headers, field);
    if i :| 0 <= i < |order| && ComesFrom(field, order[i], headers[order[i]]) {
      SentNamesExactly(order[i]);
      assert order[i] in headers;
    }
    if FromEntry(field, headers) {
      var name :| name in headers && NameRule(name) && field == HeaderField(Lower(name), Sanitized(headers[name]));
      SentNamesExactly(name);
      assert name in order;
      var i :| 0 <= i < |order| && order[i] == name;
      assert ComesFrom(field, order[i], headers[order[i]]);
    }
  }

  lemma StatusReadBack(status: nat)
    requires status <= SIZE_MAX
    ensures SizeOf(StatusText(status), Decimal) == Some(status)
  {
    DigitsRoundTrip(status, Decimal);
  }

  lemma InOrder(order: seq<Bytes>, headers: map<Bytes, Bytes>)
    requires Enumerates(order, headers)
    ensures forall i :: 0 <= i < |order| ==> order[i] in headers
  {
  }

  /** When a response has been printed, with its defaults and in any order of the header map, then the
      client reads: a field with the status; exactly the fields for the entries that may be sent;
      and exactly the body, if there is to be one. */
  lemma ResponseIsRead(streamId: U32, input: Response, includeBody: bool, options: Options, order: seq<Bytes>,
      table: Table)
    requires Enumerates(order, WithDefaults(input, options).headers)
    requires 0 <= input.status <= SIZE_MAX
    requires Printed(streamId, AllFields(input.status, order, WithDefaults(input, options).headers),
                     if includeBody && MayHaveBody(input.status) then input.body else []).Ok?
    ensures var headers := WithDefaults(input, options).headers;
      var frames := FramesIn(Printed(streamId, AllFields(input.status, order, headers),
                                     if includeBody && MayHaveBody(input.status) then input.body else []).value);
      && frames != [] && HeaderBlockPayload(frames[0]).Some?
      && var read := DecodeBlock(HeaderBlockPayload(frames[0]).value, table, false).headers;
         && read.Ok? && read.value != []
         && read.value[0].name == Ascii(":status") && SizeOf(read.value[0].value, Decimal) == Some(input.status)
         && (forall field :: field in read.value[1..] <==> FromEntry(field, headers))
         && CarryBody(frames[1..], streamId, SentBody(input, includeBody))
  {
    hide DecodeBlock, FrameWire, WithDefaults, FromEntry, Enumerates, FieldsOf, CarryBody, Printed,
         SizeOf, StatusText, FramesIn;
    var headers := WithDefaults(input, options).headers;
    assert forall i :: 0 <= i < |order| ==> order[i] in headers by { InOrder(order, headers); }
    var fields := AllFields(input.status, order, headers);
    StatusReadBack(input.status);
    ResponseReadBack(streamId, fields, SentBody(input, includeBody), table);
    forall field
      ensures field in fields[1..] <==> FromEntry(field, headers)
    {
      FieldsFromEntries(input.status, order, headers, field);
    }
  }
}
