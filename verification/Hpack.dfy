/** The HPACK decoder object and the header block encoder. */
module Hpack {
  import opened Wrappers
  import opened Octets
  import opened HpackErrors
  import opened HpackInteger
  import opened HpackTable
  import opened HpackBlocks
  import Huffman

  /** The string at an offset, in the words of the decoder. */
  lemma StringAt(bytes: Bytes, offset: nat)
    requires offset < |bytes|
    ensures DecodeString(bytes[offset..]) ==
            match DecodeInteger(bytes[offset..], 7)
            case Err(e) => Err(e)
            case Ok((size, used)) =>
              if |bytes| - (offset + used) < size then Err(IncompleteStringData)
              else
                var data := bytes[offset + used..offset + used + size];
                match if bytes[offset] >= 0x80 then HuffmanText(data) else Ok(data)
                case Ok(text) => Ok((text, used + size))
                case Err(e) => Err(e)
  {
    hide DecodeInteger, HuffmanText;
    if DecodeInteger(bytes[offset..], 7).Ok? {
      var (size, used) := DecodeInteger(bytes[offset..], 7).value;
      if |bytes| - (offset + used) >= size {
        assert bytes[offset..][used..used + size] == bytes[offset + used..offset + used + size];
      }
    }
  }

  /** `hpack_decode_string`: the string and the offset behind it. */
  method ReadString(bytes: Bytes, offset: nat) returns (r: Result<(Bytes, nat), HpackError>)
    requires offset <= |bytes|
    ensures r == match DecodeString(bytes[offset..])
                 case Ok((text, used)) => Ok((text, offset + used))
                 case Err(e) => Err(e)
    ensures r.Ok? ==> offset < r.value.1 <= |bytes|
  {
    if offset >= |bytes| {
      return Err(IncompleteString);
    }
    hide DecodeInteger, DecodeString;
    StringAt(bytes, offset);
    var coded := bytes[offset] >= 0x80;
    var length := ReadInteger(bytes, offset, 7);
    if length.Err? {
      return Err(length.error);
    }
    var (size, at) := length.value;
    if |bytes| - at < size {
      return Err(IncompleteStringData);
    }
    var encoded := bytes[at..at + size];
    if coded {
      var text := Huffman.DecodeHuffman(encoded);
      if text.Err? {
        return Err(HuffmanFailure(text.error));
      }
      return Ok((text.value, at + size));
    }
    r := Ok((encoded, at + size));
  }

  /** The decoder keeps its dynamic table newest entry first, with its size beside it. */
  class HpackDecoder {
    var maxTableSize: nat
    var tableSize: nat
    var dynamicTable: seq<HeaderField>

    ghost predicate Valid()
      reads this
    {
      tableSize == TotalSize(dynamicTable) && tableSize <= maxTableSize
    }

    function Contents(): Table
      reads this
    {
      Table(dynamicTable, maxTableSize)
    }

    constructor ()
      ensures Valid() && Contents() == Table([], 4096)
    {
      maxTableSize, tableSize, dynamicTable := 4096, 0, [];
    }

    /** Drops all entries but keeps the size limit. */
    method Reset()
      modifies this
      ensures Valid() && Contents() == Table([], old(maxTableSize))
    {
      dynamicTable, tableSize := [], 0;
    }

    /** Evicts from the old end until the table fits. */
    method EvictDynamic()
      requires tableSize == TotalSize(dynamicTable)
      modifies this
      ensures Valid() && Contents() == Table(Fit(old(dynamicTable), maxTableSize), old(maxTableSize))
    {
      while tableSize > maxTableSize && dynamicTable != []
        invariant tableSize == TotalSize(dynamicTable) && maxTableSize == old(maxTableSize)
        invariant Fit(dynamicTable, maxTableSize) == Fit(old(dynamicTable), maxTableSize)
        decreases |dynamicTable|
      {
        var last := |dynamicTable| - 1;
        TotalSizeOfInit(dynamicTable);
        EvictOldest(dynamicTable, maxTableSize);
        tableSize := tableSize - EntrySize(dynamicTable[last]);
        dynamicTable := dynamicTable[..last];
      }
      AllFit(dynamicTable, maxTableSize);
      if maxTableSize == 0 {
        assert dynamicTable == [];
        Reset();
      }
    }

    method SetMaxTableSize(bytes: nat)
      requires Valid()
      modifies this
      ensures Valid() && Contents() == Resize(old(Contents()), bytes)
    {
      maxTableSize := bytes;
      EvictDynamic();
    }

    method AddDynamic(header: HeaderField)
      requires Valid()
      modifies this
      ensures Valid() && Contents() == Insert(old(Contents()), header)
    {
      var size := EntrySize(header);
      if size > maxTableSize {
        Reset();
        return;
      }
      tableSize := tableSize + size;
      dynamicTable := [header] + dynamicTable;
      EvictDynamic();
    }

    method IndexedHeader(index: nat) returns (r: Result<HeaderField, HpackError>)
      ensures r == Lookup(Contents(), index)
    {
      if index == 0 {
        return Err(IndexZero);
      }
      if index <= STATIC_ENTRIES {
        return Ok(StaticTable()[index - 1]);
      }
      var dynamicIndex := index - STATIC_ENTRIES - 1;
      if dynamicIndex >= |dynamicTable| {
        return Err(DynamicIndexOutOfRange);
      }
      r := Ok(dynamicTable[dynamicIndex]);
    }

    /** The name part of a literal field: at an index, or spelled out. */
    method ReadName(block: Bytes, offset: nat, index: nat) returns (r: Result<(Bytes, nat), HpackError>)
      requires offset <= |block|
      ensures r == match DecodeName(block[offset..], index, Contents())
                   case Ok((name, used)) => Ok((name, offset + used))
                   case Err(e) => Err(e)
      ensures r.Ok? ==> offset <= r.value.1 <= |block|
    {
      hide DecodeString, Lookup;
      if index == 0 {
        r := ReadString(block, offset);
      } else {
        var entry := IndexedHeader(index);
        if entry.Err? {
          return Err(entry.error);
        }
        r := Ok((entry.value.name, offset));
      }
    }

    /** A literal field with a name index of `prefixBits` bits. */
    method ReadLiteral(block: Bytes, offset: nat, prefixBits: nat) returns (r: Result<(HeaderField, nat), HpackError>)
      requires offset <= |block|
      ensures r == match DecodeLiteral(block[offset..], prefixBits, Contents())
                   case Ok((h, used)) => Ok((h, offset + used))
                   case Err(e) => Err(e)
      ensures r.Ok? ==> offset < r.value.1 <= |block|
    {
      hide DecodeString, DecodeName, DecodeInteger;
      var index := ReadInteger(block, offset, prefixBits);
      if index.Err? {
        return Err(index.error);
      }
      var (nameIndex, at) := index.value;
      assert block[offset..][at - offset..] == block[at..];
      var name := ReadName(block, at, nameIndex);
      if name.Err? {
        return Err(name.error);
      }
      var (text, behind) := name.value;
      assert block[offset..][behind - offset..] == block[behind..];
      var value := ReadString(block, behind);
      if value.Err? {
        return Err(value.error);
      }
      r := Ok((HeaderField(text, value.value.0), value.value.1));
    }

    /** One iteration of `decode_header_block`: reads what starts at `offset`, and gives the
        offset behind it and the field, if it is one. */
    method ReadOne(block: Bytes, offset: nat, seen: bool) returns (r: Result<(nat, Option<HeaderField>), HpackError>)
      requires Valid() && offset < |block|
      modifies this
      ensures Valid()
      ensures r.Err? ==>
          Contents() == old(Contents())
              && DecodeBlock(block[offset..], old(Contents()), seen) == BlockResult(Err(r.error), Contents())
      ensures r.Ok? ==> offset < r.value.0 <= |block|
      ensures r.Ok? && r.value.1.None? ==>
                !seen && DecodeBlock(block[offset..], old(Contents()), seen)
                    == DecodeBlock(block[r.value.0..], Contents(), false)
      ensures r.Ok? && r.value.1.Some? ==>
                DecodeBlock(block[offset..], old(Contents()), seen)
                    == DecodeBlock(block[r.value.0..], Contents(), true).Behind(r.value.1.value)
    {
      hide DecodeInteger, DecodeLiteral, Lookup, Insert, Resize;
      var octet := block[offset];
      if octet >= 0x80 {
        var index := ReadInteger(block, offset, 7);
        if index.Err? {
          return Err(index.error);
        }
        var h := IndexedHeader(index.value.0);
        if h.Err? {
          return Err(h.error);
        }
        assert block[offset..][index.value.1 - offset..] == block[index.value.1..];
        return Ok((index.value.1, Some(h.value)));
      }
      if 0x20 <= octet < 0x40 {
        if seen {
          return Err(LateSizeUpdate);
        }
        var newSize := ReadInteger(block, offset, 5);
        if newSize.Err? {
          return Err(newSize.error);
        }
        assert block[offset..][newSize.value.1 - offset..] == block[newSize.value.1..];
        SetMaxTableSize(newSize.value.0);
        return Ok((newSize.value.1, None));
      }
      var literal := ReadLiteral(block, offset, if octet >= 0x40 then 6 else 4);
      if literal.Err? {
        return Err(literal.error);
      }
      assert block[offset..][literal.value.1 - offset..] == block[literal.value.1..];
      if octet >= 0x40 {
        AddDynamic(literal.value.0);
      }
      r := Ok((literal.value.1, Some(literal.value.0)));
    }

    method DecodeHeaderBlock(block: Bytes) returns (r: Result<seq<HeaderField>, HpackError>)
      requires Valid()
      modifies this
      ensures Valid()
      ensures BlockResult(r, Contents()) == DecodeBlock(block, old(Contents()), false)
    {
      var headers: seq<HeaderField> := [];
      var offset := 0;
      var regularHeaderSeen := false;
      assert block[0..] == block;
      AllBehindNothing(DecodeBlock(block, Contents(), false));
      while offset < |block|
        invariant Valid() && offset <= |block|
        invariant AllBehind(headers, DecodeBlock(block[offset..], Contents(), regularHeaderSeen)) ==
                  DecodeBlock(block, old(Contents()), false)
        decreases |block| - offset
      {
        hide DecodeBlock;
        ghost var rest := DecodeBlock(block[offset..], Contents(), regularHeaderSeen);
        var one := ReadOne(block, offset, regularHeaderSeen);
        if one.Err? {
          return Err(one.error);
        }
        offset := one.value.0;
        if one.value.1.Some? {
          OneMoreBehind(headers, one.value.1.value, DecodeBlock(block[offset..], Contents(), true));
          headers := headers + [one.value.1.value];
          regularHeaderSeen := true;
        }
      }
      assert block[offset..] == [] && headers + [] == headers;
      r := Ok(headers);
    }
  }

  /** The result with the fields `front` before its own. */
  function AllBehind(front: seq<HeaderField>, r: BlockResult): BlockResult {
    if r.headers.Ok? then BlockResult(Ok(front + r.headers.value), r.table) else r
  }

  lemma AllBehindNothing(r: BlockResult)
    ensures AllBehind([], r) == r
  {
    if r.headers.Ok? {
      assert [] + r.headers.value == r.headers.value;
    }
  }

  lemma OneMoreBehind(front: seq<HeaderField>, h: HeaderField, r: BlockResult)
    ensures AllBehind(front, r.Behind(h)) == AllBehind(front + [h], r)
  {
    if r.headers.Ok? {
      assert front + ([h] + r.headers.value) == front + [h] + r.headers.value;
    }
  }

  // ----- encoding

  /** The index of the first static entry that equals `h`, or 0. */
  function ExactIndex(entries: seq<HeaderField>, h: HeaderField, from: nat): (index: nat)
    requires from <= |entries|
    ensures index <= |entries| && (index > 0 ==> entries[index - 1] == h)
    decreases |entries| - from
  {
    if from == |entries| then 0
    else if entries[from] == h then from + 1
    else ExactIndex(entries, h, from + 1)
  }

  /** The index of the first static entry with the name `name`, or 0. */
  function NameIndex(entries: seq<HeaderField>, name: Bytes, from: nat): (index: nat)
    requires from <= |entries|
    ensures index <= |entries| && (index > 0 ==> entries[index - 1].name == name)
    decreases |entries| - from
  {
    if from == |entries| then 0
    else if entries[from].name == name then from + 1
    else NameIndex(entries, name, from + 1)
  }

  method FindExactStaticIndex(h: HeaderField) returns (index: nat)
    ensures index == ExactIndex(StaticTable(), h, 0)
  {
    var entries := StaticTable();
    hide StaticTable;
    for i := 0 to |entries|
      invariant ExactIndex(entries, h, 0) == ExactIndex(entries, h, i)
    {
      if entries[i] == h {
        return i + 1;
      }
    }
    index := 0;
  }

  method FindNameStaticIndex(name: Bytes) returns (index: nat)
    ensures index == NameIndex(StaticTable(), name, 0)
  {
    var entries := StaticTable();
    hide StaticTable;
    for i := 0 to |entries|
      invariant NameIndex(entries, name, 0) == NameIndex(entries, name, i)
    {
      if entries[i].name == name {
        return i + 1;
      }
    }
    index := 0;
  }

  /** The representation that the encoder picks: an indexed field when the static table has
      it, and otherwise a literal that is not indexed. */
  function Chosen(h: HeaderField): Representation {
    var exact := ExactIndex(StaticTable(), h, 0);
    var name := NameIndex(StaticTable(), h.name, 0);
    if exact != 0 then IndexedField(exact)
    else LiteralField(Without, if name != 0 then AtIndex(name) else Spelled(Plain(h.name)), Plain(h.value))
  }

  function AllChosen(headers: seq<HeaderField>): (r: seq<Representation>)
    ensures |r| == |headers|
  {
    if headers == [] then [] else [Chosen(headers[0])] + AllChosen(headers[1..])
  }

  /** Why a field cannot be encoded, if it cannot. */
  function Refusal(h: HeaderField): Option<HpackError> {
    if h.name == [] then Some(EmptyHeaderName)
    else
      match Chosen(h)
      case IndexedField(_) => None
      case LiteralField(_, name, _) =>
        if name.Spelled? && |h.name| >= U32_LIMIT then Some(StringTooLarge)
        else if |h.value| >= U32_LIMIT then Some(StringTooLarge)
        else None
      case SizeUpdate(_) => None
  }

  /** What the encoder gives for a header list: the wire form of its choices, or the first
      refusal. */
  ghost function EncodedBlock(headers: seq<HeaderField>): Result<Bytes, HpackError> {
    if headers == [] then Ok([])
    else if Refusal(headers[0]).Some? then Err(Refusal(headers[0]).value)
    else
      match EncodedBlock(headers[1..])
      case Ok(rest) => Ok(WireOf(Chosen(headers[0])) + rest)
      case Err(e) => Err(e)
  }

  /** `hpack_encode_string`. */
  method EncodeString(value: Bytes) returns (r: Result<Bytes, HpackError>)
    ensures |value| >= U32_LIMIT ==> r == Err(StringTooLarge)
    ensures |value| < U32_LIMIT ==> r == Ok(StringWire(Plain(value)))
  {
    if |value| >= U32_LIMIT {
      return Err(StringTooLarge);
    }
    var size := EncodeInteger(|value|, 7, 0);
    r := Ok(size.value + value);
  }

  method EncodeField(h: HeaderField) returns (r: Result<Bytes, HpackError>)
    ensures r == match Refusal(h) case Some(e) => Err(e) case None => Ok(WireOf(Chosen(h)))
  {
    hide StaticTable, IntegerWire, StringWire;
    if h.name == [] {
      return Err(EmptyHeaderName);
    }
    var exact := FindExactStaticIndex(h);
    if exact != 0 {
      r := EncodeInteger(exact, 7, 0x80);
      return;
    }
    var nameIndex := FindNameStaticIndex(h.name);
    var index := EncodeInteger(nameIndex, 4, 0);
    var output := index.value;
    if nameIndex == 0 {
      var name := EncodeString(h.name);
      if name.Err? {
        return name;
      }
      output := output + name.value;
    } else {
      assert output + [] == output;
    }
    var value := EncodeString(h.value);
    if value.Err? {
      return value;
    }
    r := Ok(output + value.value);
  }

  /** `hpack_encode_header_block`. */
  method EncodeHeaderBlock(headers: seq<HeaderField>) returns (r: Result<Bytes, HpackError>)
    ensures r == EncodedBlock(headers)
  {
    var output: Bytes := [];
    assert headers[0..] == headers;
    assert EncodedBlock(headers).Ok? ==> output + EncodedBlock(headers).value == EncodedBlock(headers).value;
    for i := 0 to |headers|
      invariant match EncodedBlock(headers[i..])
                case Ok(rest) => EncodedBlock(headers) == Ok(output + rest)
                case Err(e) => EncodedBlock(headers) == Err(e)
    {
      hide Refusal, Chosen, WireOf;
      assert headers[i..][1..] == headers[i + 1..];
      var field := EncodeField(headers[i]);
      if field.Err? {
        return field;
      }
      if EncodedBlock(headers[i + 1..]).Ok? {
        var rest := EncodedBlock(headers[i + 1..]).value;
        assert output + (field.value + rest) == output + field.value + rest;
      }
      output := output + field.value;
    }
    assert output + [] == output;
    r := Ok(output);
  }

  // ----- the encoder is undone by the decoder

  /** The strings that the encoder spells out are short enough for the decoder's integers. */
  ghost predicate Carried(h: HeaderField) {
    Fits(Chosen(h))
  }

  ghost predicate AllCarried(headers: seq<HeaderField>) {
    forall i :: 0 <= i < |headers| ==> Carried(headers[i])
  }

  /** Names and values below 2^28 + 127 octets are always carried. */
  lemma ShortStringsCarried(h: HeaderField)
    requires |h.name| < Room(0) + 127 && |h.value| < Room(0) + 127
    ensures Carried(h)
  {
    hide StaticTable;
  }

  lemma InterpretChosen(h: HeaderField, more: seq<Representation>, table: Table, seen: bool)
    ensures Interpret([Chosen(h)] + more, table, seen) == Interpret(more, table, true).Behind(h)
  {
    hide StaticTable, NameIndex, ExactIndex;
    assert ([Chosen(h)] + more)[1..] == more;
  }

  lemma {:induction false} InterpretAllChosen(headers: seq<HeaderField>, table: Table, seen: bool)
    ensures Interpret(AllChosen(headers), table, seen) == BlockResult(Ok(headers), table)
    decreases |headers|
  {
    hide Chosen, Lookup, Insert, Resize, NameOf;
    if headers != [] {
      InterpretChosen(headers[0], AllChosen(headers[1..]), table, seen);
      InterpretAllChosen(headers[1..], table, true);
      assert [headers[0]] + headers[1..] == headers;
    }
  }

  lemma {:induction false} EncodedIsWireOfChosen(headers: seq<HeaderField>)
    requires EncodedBlock(headers).Ok?
    ensures EncodedBlock(headers).value == BlockWire(AllChosen(headers))
    ensures AllCarried(headers) ==> AllFitted(AllChosen(headers))
    decreases |headers|
  {
    hide Refusal, Fits, Chosen, WireOf;
    if headers != [] {
      EncodedIsWireOfChosen(headers[1..]);
      var reps := AllChosen(headers);
      assert reps[1..] == AllChosen(headers[1..]);
      if AllCarried(headers) {
        assert forall i :: 0 <= i < |headers[1..]| ==> headers[1..][i] == headers[i + 1];
        assert Carried(headers[0]);
        assert forall i :: 0 < i < |reps| ==> reps[i] == AllChosen(headers[1..])[i - 1];
      }
    }
  }

  lemma OversizedString(text: Bytes, suffix: Bytes)
    requires |text| >= Room(0) + 127
    ensures DecodeString(StringWire(Plain(text)) + suffix) == Err(IntegerOverflow)
  {
    assert LowBitsClear(0, 7);
    hide HuffmanText;
    IntegerRoundTrip(|text|, 7, 0, text + suffix);
    FirstOctet(|text|, 7, 0);
    hide IntegerWire, DecodeInteger;
    assert StringWire(Plain(text)) + suffix == IntegerWire(|text|, 7, 0) + (text + suffix);
  }

  lemma OversizedLiteral(name: NameForm, value: Bytes, suffix: Bytes, table: Table)
    requires name.AtIndex? ==> 0 < name.index <= STATIC_ENTRIES
    requires name.Spelled? ==> name.form.Plain?
    requires |value| >= Room(0) + 127 || (name.Spelled? && |name.form.text| >= Room(0) + 127)
    ensures DecodeLiteral(WireOf(LiteralField(Without, name, Plain(value))) + suffix, 4, table) == Err(IntegerOverflow)
  {
    hide IntegerWire, DecodeInteger, StringWire, DecodeString, StaticTable;
    var rep := LiteralField(Without, name, Plain(value));
    var index := if name.AtIndex? then name.index else 0;
    var head, spelled, last := IntegerWire(index, 4, 0), NameWire(name), StringWire(Plain(value));
    IndexRoundTrip(index, Without, spelled + last + suffix);
    var s := WireOf(rep) + suffix;
    assert s == head + (spelled + last + suffix);
    assert s[|head|..] == spelled + (last + suffix);
    assert s[|head| + |spelled|..] == last + suffix;
    if name.Spelled? && |name.form.text| >= Room(0) + 127 {
      OversizedString(name.form.text, last + suffix);
    } else {
      if name.Spelled? {
        StringRoundTrip(name.form, last + suffix);
      }
      OversizedString(value, suffix);
    }
  }

  /** A field that is not carried is refused by the decoder. */
  lemma OversizedRefused(h: HeaderField, suffix: Bytes, table: Table, seen: bool)
    requires !Carried(h)
    ensures DecodeBlock(WireOf(Chosen(h)) + suffix, table, seen).headers == Err(IntegerOverflow)
  {
    hide StaticTable, NameIndex, ExactIndex, DecodeLiteral, DecodeBlock, IntegerWire, StringWire;
    var rep := Chosen(h);
    assert rep.LiteralField? && rep.indexing == Without && rep.value == Plain(h.value);
    OversizedLiteral(rep.name, h.value, suffix, table);
    FirstOctetOfLiteral(rep.name, h.value, suffix);
    LiteralFailureFailsBlock(WireOf(rep) + suffix, table, seen, IntegerOverflow);
  }

  lemma FirstOctetOfLiteral(name: NameForm, value: Bytes, suffix: Bytes)
    ensures var s := WireOf(LiteralField(Without, name, Plain(value))) + suffix; s != [] && s[0] < 0x20
  {
    hide StringWire;
    assert LowBitsClear(0, 4);
    FirstOctet(if name.AtIndex? then name.index else 0, 4, 0);
  }

  lemma LiteralFailureFailsBlock(s: Bytes, table: Table, seen: bool, e: HpackError)
    requires s != [] && s[0] < 0x20 && DecodeLiteral(s, 4, table) == Err(e)
    ensures DecodeBlock(s, table, seen) == BlockResult(Err(e), table)
  {
    hide DecodeLiteral, DecodeInteger;
  }

  lemma ChosenIsCarriedOrRefused(h: HeaderField, more: Bytes, table: Table, seen: bool)
    ensures DecodeBlock(WireOf(Chosen(h)) + more, table, seen).headers ==
            if Carried(h) then DecodeBlock(more, table, true).Behind(h).headers else Err(IntegerOverflow)
  {
    if Carried(h) {
      OneChosenDecodes(h, more, table, seen);
    } else {
      OversizedRefused(h, more, table, seen);
    }
  }

  lemma OneChosenDecodes(h: HeaderField, more: Bytes, table: Table, seen: bool)
    requires Carried(h)
    ensures DecodeBlock(WireOf(Chosen(h)) + more, table, seen) == DecodeBlock(more, table, true).Behind(h)
  {
    hide StaticTable, NameIndex, ExactIndex, DecodeBlock, WireOf;
    var rep := Chosen(h);
    if rep.IndexedField? {
      IndexedStep(rep.index, more, table, seen);
    } else {
      LiteralStep(rep, more, table, seen);
    }
  }

  /** Decoding what the encoder made gives back the header list, from any decoder state, and
      leaves the dynamic table alone. */
  lemma EncoderUndoneByDecoder(headers: seq<HeaderField>, table: Table)
    requires EncodedBlock(headers).Ok? && AllCarried(headers)
    ensures DecodeBlock(EncodedBlock(headers).value, table, false) == BlockResult(Ok(headers), table)
  {
    hide DecodeBlock, Interpret, AllFitted, AllCarried;
    EncodedIsWireOfChosen(headers);
    DecoderRefinesInterpreter(AllChosen(headers), table, false);
    InterpretAllChosen(headers, table, false);
  }

  lemma {:induction false} FailsUnlessCarried(headers: seq<HeaderField>, table: Table, seen: bool)
    requires EncodedBlock(headers).Ok? && !AllCarried(headers)
    ensures DecodeBlock(EncodedBlock(headers).value, table, seen).headers == Err(IntegerOverflow)
    decreases |headers|
  {
    hide DecodeBlock, Refusal, WireOf, Chosen, Fits;
    ChosenIsCarriedOrRefused(headers[0], EncodedBlock(headers[1..]).value, table, seen);
    if Carried(headers[0]) {
      assert forall i :: 0 < i < |headers| ==> headers[i] == headers[1..][i - 1];
      FailsUnlessCarried(headers[1..], table, true);
    }
  }

  /** The round trip holds if and only if every string that is spelled out is short enough. */
  lemma EncoderUndoneExactly(headers: seq<HeaderField>, table: Table)
    requires EncodedBlock(headers).Ok?
    ensures DecodeBlock(EncodedBlock(headers).value, table, false).headers == Ok(headers) <==> AllCarried(headers)
  {
    hide DecodeBlock, AllCarried, EncodedBlock;
    if AllCarried(headers) {
      EncoderUndoneByDecoder(headers, table);
    } else {
      FailsUnlessCarried(headers, table, false);
    }
  }

  /** A block is at least as long as any string spelled out in it. */
  lemma {:induction false} ShortBlockCarries(headers: seq<HeaderField>)
    requires EncodedBlock(headers).Ok? && |EncodedBlock(headers).value| < Room(0)
    ensures AllCarried(headers)
    decreases |headers|
  {
    hide WireOf, Chosen, Refusal, Fits;
    if headers != [] {
      ShortWireFits(headers[0]);
      ShortBlockCarries(headers[1..]);
      assert forall i :: 0 < i < |headers| ==> headers[i] == headers[1..][i - 1];
    }
  }

  lemma ShortWireFits(h: HeaderField)
    ensures |WireOf(Chosen(h))| < Room(0) ==> Carried(h)
  {
    hide StaticTable, IntegerWire;
  }
}
