/** What an HPACK header block means: the decoder as a function of the block and the table,
    the representations of section 6 of RFC 7541 with their wire form, and an interpreter of
    representations that never looks at octets. */
module HpackBlocks {
  import opened Wrappers
  import opened Octets
  import opened HpackErrors
  import opened HpackInteger
  import opened HpackTable
  import H = HuffmanStrings
  import T = HuffmanTable

  // ----- strings (section 5.2)

  ghost function HuffmanText(encoded: Bytes): Result<Bytes, HpackError> {
    match H.HuffmanText(T.Codes(T.Table()), encoded)
    case Ok(text) => Ok(text)
    case Err(e) => Err(HuffmanFailure(e))
  }

  /** The string at the front of `s`, and the number of octets that it takes. */
  ghost function DecodeString(s: Bytes): (r: Result<(Bytes, nat), HpackError>)
    ensures r.Ok? ==> 0 < r.value.1 <= |s|
  {
    if s == [] then Err(IncompleteString)
    else
      match DecodeInteger(s, 7)
      case Err(e) => Err(e)
      case Ok((size, used)) =>
        if |s| - used < size then Err(IncompleteStringData)
        else
          var data := s[used..used + size];
          match if s[0] >= 0x80 then HuffmanText(data) else Ok(data)
          case Ok(text) => Ok((text, used + size))
          case Err(e) => Err(e)
  }

  // ----- header blocks (section 6)

  datatype BlockResult = BlockResult(headers: Result<seq<HeaderField>, HpackError>, table: Table) {
    /** The result with one more field in front. */
    function Behind(h: HeaderField): BlockResult {
      if headers.Ok? then BlockResult(Ok([h] + headers.value), table) else this
    }
  }

  /** A literal field with an `n`-bit name index, and the number of octets that it takes. */
  ghost function DecodeLiteral(s: Bytes, n: nat, table: Table): (r: Result<(HeaderField, nat), HpackError>)
    ensures r.Ok? ==> 0 < r.value.1 <= |s|
  {
    match DecodeInteger(s, n)
    case Err(e) => Err(e)
    case Ok((index, used)) =>
      match DecodeName(s[used..], index, table)
      case Err(e) => Err(e)
      case Ok((name, more)) =>
        match DecodeString(s[used + more..])
        case Err(e) => Err(e)
        case Ok((value, last)) => Ok((HeaderField(name, value), used + more + last))
  }

  ghost function DecodeName(s: Bytes, index: nat, table: Table): (r: Result<(Bytes, nat), HpackError>)
    ensures r.Ok? ==> r.value.1 <= |s|
  {
    if index == 0 then DecodeString(s)
    else
      match Lookup(table, index)
      case Ok(entry) => Ok((entry.name, 0))
      case Err(e) => Err(e)
  }

  /** Decodes the rest `s` of a block; `seen` tells whether a field came before. A failure
      leaves the table as the fields before it have made it. */
  ghost function DecodeBlock(s: Bytes, table: Table, seen: bool): BlockResult
    decreases |s|
  {
    if s == [] then BlockResult(Ok([]), table)
    else if s[0] >= 0x80 then
      match DecodeInteger(s, 7)
      case Err(e) => BlockResult(Err(e), table)
      case Ok((index, used)) =>
        match Lookup(table, index)
        case Err(e) => BlockResult(Err(e), table)
        case Ok(h) => DecodeBlock(s[used..], table, true).Behind(h)
    else if 0x20 <= s[0] < 0x40 then
      if seen then BlockResult(Err(LateSizeUpdate), table)
      else
        match DecodeInteger(s, 5)
        case Err(e) => BlockResult(Err(e), table)
        case Ok((size, used)) => DecodeBlock(s[used..], Resize(table, size), false)
    else if s[0] >= 0x40 then
      match DecodeLiteral(s, 6, table)
      case Err(e) => BlockResult(Err(e), table)
      case Ok((h, used)) => DecodeBlock(s[used..], Insert(table, h), true).Behind(h)
    else
      match DecodeLiteral(s, 4, table)
      case Err(e) => BlockResult(Err(e), table)
      case Ok((h, used)) => DecodeBlock(s[used..], table, true).Behind(h)
  }

  // ----- representations

  /** A string and the way it is written. */
  datatype StringForm = Plain(text: Bytes) | Coded(text: Bytes)

  datatype NameForm = AtIndex(index: nat) | Spelled(form: StringForm)

  datatype Indexing = Incremental | Without | Never

  datatype Representation =
    | IndexedField(index: nat)
    | LiteralField(indexing: Indexing, name: NameForm, value: StringForm)
    | SizeUpdate(size: nat)

  ghost function Payload(form: StringForm): Bytes {
    match form
    case Plain(text) => text
    case Coded(text) => H.HuffmanEncode(T.Codes(T.Table()), text)
  }

  ghost function StringWire(form: StringForm): Bytes {
    IntegerWire(|Payload(form)|, 7, if form.Coded? then 0x80 else 0) + Payload(form)
  }

  ghost function NameWire(name: NameForm): Bytes {
    match name
    case AtIndex(_) => []
    case Spelled(form) => StringWire(form)
  }

  function IndexBits(indexing: Indexing): nat {
    if indexing == Incremental then 6 else 4
  }

  function IndexMask(indexing: Indexing): Byte {
    match indexing case Incremental => 0x40 case Without => 0 case Never => 0x10
  }

  ghost function WireOf(rep: Representation): Bytes {
    match rep
    case IndexedField(index) => IntegerWire(index, 7, 0x80)
    case LiteralField(indexing, name, value) =>
      IntegerWire(if name.AtIndex? then name.index else 0, IndexBits(indexing), IndexMask(indexing))
      + NameWire(name) + StringWire(value)
    case SizeUpdate(size) => IntegerWire(size, 5, 0x20)
  }

  ghost function BlockWire(reps: seq<Representation>): Bytes {
    if reps == [] then [] else WireOf(reps[0]) + BlockWire(reps[1..])
  }

  /** The numbers in a representation are within what a prefix integer can carry. */
  ghost predicate Fits(rep: Representation) {
    match rep
    case IndexedField(index) => index < Room(0) + 127
    case LiteralField(indexing, name, value) =>
      && |Payload(value)| < Room(0) + 127
      && (match name
          case AtIndex(index) => 0 < index < Room(0) + MaxPrefix(IndexBits(indexing))
          case Spelled(form) => |Payload(form)| < Room(0) + 127)
    case SizeUpdate(size) => size < Room(0) + 31
  }

  ghost predicate AllFitted(reps: seq<Representation>) {
    forall i :: 0 <= i < |reps| ==> Fits(reps[i])
  }

  // ----- the interpreter

  function NameOf(name: NameForm, table: Table): Result<Bytes, HpackError> {
    match name
    case Spelled(form) => Ok(form.text)
    case AtIndex(index) =>
      match Lookup(table, index)
      case Ok(entry) => Ok(entry.name)
      case Err(e) => Err(e)
  }

  function Interpret(reps: seq<Representation>, table: Table, seen: bool): BlockResult {
    if reps == [] then BlockResult(Ok([]), table)
    else
      match reps[0]
      case IndexedField(index) =>
        (match Lookup(table, index)
         case Err(e) => BlockResult(Err(e), table)
         case Ok(h) => Interpret(reps[1..], table, true).Behind(h))
      case LiteralField(indexing, name, value) =>
        (match NameOf(name, table)
         case Err(e) => BlockResult(Err(e), table)
         case Ok(text) =>
           var h := HeaderField(text, value.text);
           Interpret(reps[1..], if indexing == Incremental then Insert(table, h) else table, true).Behind(h))
      case SizeUpdate(size) =>
        if seen then BlockResult(Err(LateSizeUpdate), table)
        else Interpret(reps[1..], Resize(table, size), false)
  }

  // ----- the decoder refines the interpreter

  lemma TextOfPayload(form: StringForm)
    ensures (if form.Coded? then HuffmanText(Payload(form)) else Ok(Payload(form))) == Ok(form.text)
  {
    if form.Coded? {
      H.TableIsStringCode();
      H.HuffmanRoundTrip(T.Codes(T.Table()), form.text);
    }
  }

  lemma LengthRoundTrip(size: nat, coded: bool, suffix: Bytes)
    requires size < Room(0) + 127
    ensures var head := IntegerWire(size, 7, if coded then 0x80 else 0);
      && head != [] && (head[0] >= 0x80 <==> coded)
      && DecodeInteger(head + suffix, 7) == Ok((size, |head|))
  {
    var mask: Byte := if coded then 0x80 else 0;
    assert LowBitsClear(0x80, 7) && LowBitsClear(0, 7);
    IntegerRoundTrip(size, 7, mask, suffix);
    FirstOctet(size, 7, mask);
  }

  lemma StringRoundTrip(form: StringForm, suffix: Bytes)
    requires |Payload(form)| < Room(0) + 127
    ensures DecodeString(StringWire(form) + suffix) == Ok((form.text, |StringWire(form)|))
  {
    hide Payload, HuffmanText, DecodeInteger, IntegerWire;
    TextOfPayload(form);
    var data := Payload(form);
    LengthRoundTrip(|data|, form.Coded?, data + suffix);
    var head := IntegerWire(|data|, 7, if form.Coded? then 0x80 else 0);
    var s := StringWire(form) + suffix;
    assert s == head + (data + suffix);
    assert s[|head|..|head| + |data|] == data;
  }

  lemma IndexRoundTrip(index: nat, indexing: Indexing, suffix: Bytes)
    requires index < Room(0) + MaxPrefix(IndexBits(indexing))
    ensures var head := IntegerWire(index, IndexBits(indexing), IndexMask(indexing));
      DecodeInteger(head + suffix, IndexBits(indexing)) == Ok((index, |head|))
  {
    assert LowBitsClear(0x40, 6) && LowBitsClear(0x10, 4) && LowBitsClear(0, 4);
    IntegerRoundTrip(index, IndexBits(indexing), IndexMask(indexing), suffix);
  }

  lemma LiteralRoundTrip(rep: Representation, table: Table, suffix: Bytes)
    requires rep.LiteralField? && Fits(rep)
    ensures DecodeLiteral(WireOf(rep) + suffix, IndexBits(rep.indexing), table) ==
            match NameOf(rep.name, table)
            case Ok(text) => Ok((HeaderField(text, rep.value.text), |WireOf(rep)|))
            case Err(e) => Err(e)
  {
    hide DecodeString, StringWire, Payload, DecodeInteger, IntegerWire;
    var n, mask := IndexBits(rep.indexing), IndexMask(rep.indexing);
    var index := if rep.name.AtIndex? then rep.name.index else 0;
    var head, name, value := IntegerWire(index, n, mask), NameWire(rep.name), StringWire(rep.value);
    IndexRoundTrip(index, rep.indexing, name + value + suffix);
    var s := WireOf(rep) + suffix;
    assert s == head + (name + value + suffix);
    assert s[|head|..] == name + (value + suffix);
    assert s[|head| + |name|..] == value + suffix;
    if rep.name.Spelled? {
      StringRoundTrip(rep.name.form, value + suffix);
    }
    StringRoundTrip(rep.value, suffix);
  }

  lemma FirstOctetOf(rep: Representation, suffix: Bytes)
    requires Fits(rep)
    ensures var s := WireOf(rep) + suffix;
      && s != []
      && (s[0] >= 0x80 <==> rep.IndexedField?)
      && (0x20 <= s[0] < 0x40 <==> rep.SizeUpdate?)
      && (0x40 <= s[0] < 0x80 <==> rep.LiteralField? && rep.indexing == Incremental)
  {
    assert LowBitsClear(0x80, 7) && LowBitsClear(0x20, 5);
    assert LowBitsClear(0x40, 6) && LowBitsClear(0x10, 4) && LowBitsClear(0, 4);
    match rep
    case IndexedField(index) => FirstOctet(index, 7, 0x80);
    case SizeUpdate(size) => FirstOctet(size, 5, 0x20);
    case LiteralField(indexing, name, value) =>
      FirstOctet(if name.AtIndex? then name.index else 0, IndexBits(indexing), IndexMask(indexing));
  }

  lemma DropWire(a: Bytes, b: Bytes)
    ensures (a + b)[|a|..] == b
  {
  }

  lemma IndexedStep(index: nat, rest: Bytes, table: Table, seen: bool)
    requires index < Room(0) + 127
    ensures DecodeBlock(WireOf(IndexedField(index)) + rest, table, seen) ==
            match Lookup(table, index)
            case Err(e) => BlockResult(Err(e), table)
            case Ok(h) => DecodeBlock(rest, table, true).Behind(h)
  {
    hide DecodeLiteral, DecodeInteger, WireOf, Lookup;
    var rep := IndexedField(index);
    FirstOctetOf(rep, rest);
    DropWire(WireOf(rep), rest);
    IndexedRoundTrip(index, rest);
  }

  lemma SizeUpdateStep(size: nat, rest: Bytes, table: Table, seen: bool)
    requires size < Room(0) + 31
    ensures DecodeBlock(WireOf(SizeUpdate(size)) + rest, table, seen) ==
            if seen then BlockResult(Err(LateSizeUpdate), table) else DecodeBlock(rest, Resize(table, size), false)
  {
    hide DecodeLiteral, DecodeInteger, WireOf, Resize;
    var rep := SizeUpdate(size);
    FirstOctetOf(rep, rest);
    DropWire(WireOf(rep), rest);
    SizeUpdateRoundTrip(size, rest);
  }

  lemma LiteralStep(rep: Representation, rest: Bytes, table: Table, seen: bool)
    requires rep.LiteralField? && Fits(rep)
    ensures DecodeBlock(WireOf(rep) + rest, table, seen) ==
            match NameOf(rep.name, table)
            case Err(e) => BlockResult(Err(e), table)
            case Ok(text) =>
              var h := HeaderField(text, rep.value.text);
              DecodeBlock(rest, if rep.indexing == Incremental then Insert(table, h) else table, true).Behind(h)
  {
    hide DecodeLiteral, DecodeInteger, WireOf, Insert, NameOf, Fits;
    FirstOctetOf(rep, rest);
    DropWire(WireOf(rep), rest);
    LiteralRoundTrip(rep, table, rest);
  }

  /** Decoding the wire form of any representations gives what the interpreter gives for
      them, fields or failure, and leaves the same table. */
  lemma {:induction false} DecoderRefinesInterpreter(reps: seq<Representation>, table: Table, seen: bool)
    requires AllFitted(reps)
    ensures DecodeBlock(BlockWire(reps), table, seen) == Interpret(reps, table, seen)
    decreases |reps|
  {
    hide WireOf, Insert, Resize, Lookup, NameOf;
    if reps != [] {
      var rest := BlockWire(reps[1..]);
      assert Fits(reps[0]);
      match reps[0]
      case IndexedField(index) =>
        IndexedStep(index, rest, table, seen);
        DecoderRefinesInterpreter(reps[1..], table, true);
      case SizeUpdate(size) =>
        SizeUpdateStep(size, rest, table, seen);
        DecoderRefinesInterpreter(reps[1..], Resize(table, size), false);
      case LiteralField(indexing, name, value) =>
        LiteralStep(reps[0], rest, table, seen);
        match NameOf(name, table)
        case Err(_) =>
        case Ok(text) =>
          var h := HeaderField(text, value.text);
          DecoderRefinesInterpreter(reps[1..], if indexing == Incremental then Insert(table, h) else table, true);
    }
  }

  lemma IndexedRoundTrip(index: nat, rest: Bytes)
    requires index < Room(0) + 127
    ensures DecodeInteger(WireOf(IndexedField(index)) + rest, 7) == Ok((index, |WireOf(IndexedField(index))|))
  {
    assert LowBitsClear(0x80, 7);
    IntegerRoundTrip(index, 7, 0x80, rest);
  }

  lemma SizeUpdateRoundTrip(size: nat, rest: Bytes)
    requires size < Room(0) + 31
    ensures DecodeInteger(WireOf(SizeUpdate(size)) + rest, 5) == Ok((size, |WireOf(SizeUpdate(size))|))
  {
    assert LowBitsClear(0x20, 5);
    IntegerRoundTrip(size, 5, 0x20, rest);
  }

  // ----- many blocks on one connection

  ghost function DecodeBlocks(blocks: seq<Bytes>, table: Table): (seq<Result<seq<HeaderField>, HpackError>>, Table) {
    if blocks == [] then ([], table)
    else
      var first := DecodeBlock(blocks[0], table, false);
      var rest := DecodeBlocks(blocks[1..], first.table);
      ([first.headers] + rest.0, rest.1)
  }

  function InterpretBlocks(blocks: seq<seq<Representation>>, table: Table): (seq<Result<seq<HeaderField>,
      HpackError>>, Table) {
    if blocks == [] then ([], table)
    else
      var first := Interpret(blocks[0], table, false);
      var rest := InterpretBlocks(blocks[1..], first.table);
      ([first.headers] + rest.0, rest.1)
  }

  ghost function WireBlocks(blocks: seq<seq<Representation>>): (r: seq<Bytes>)
    ensures |r| == |blocks|
  {
    if blocks == [] then [] else [BlockWire(blocks[0])] + WireBlocks(blocks[1..])
  }

  /** The same for every sequence of blocks, each starting from the table that the blocks
      before it left. */
  lemma {:induction false} BlocksRefineInterpreter(blocks: seq<seq<Representation>>, table: Table)
    requires forall i :: 0 <= i < |blocks| ==> AllFitted(blocks[i])
    ensures DecodeBlocks(WireBlocks(blocks), table) == InterpretBlocks(blocks, table)
    decreases |blocks|
  {
    if blocks != [] {
      assert AllFitted(blocks[0]);
      DecoderRefinesInterpreter(blocks[0], table, false);
      assert WireBlocks(blocks)[1..] == WireBlocks(blocks[1..]);
      BlocksRefineInterpreter(blocks[1..], Interpret(blocks[0], table, false).table);
    }
  }

  /** Whatever octets arrive, the table stays within its limit. */
  lemma {:induction false} LimitKeptByBlock(s: Bytes, table: Table, seen: bool)
    requires WithinLimit(table)
    ensures WithinLimit(DecodeBlock(s, table, seen).table)
    decreases |s|
  {
    hide DecodeLiteral, DecodeInteger, WithinLimit, Insert, Resize, Lookup;
    if s == [] {
    } else if s[0] >= 0x80 {
      match DecodeInteger(s, 7)
      case Err(_) =>
      case Ok((_, used)) => LimitKeptByBlock(s[used..], table, true);
    } else if 0x20 <= s[0] < 0x40 {
      match DecodeInteger(s, 5)
      case Err(_) =>
      case Ok((size, used)) =>
        LimitKept(table, HeaderField([], []), size);
        LimitKeptByBlock(s[used..], Resize(table, size), false);
    } else {
      match DecodeLiteral(s, if s[0] >= 0x40 then 6 else 4, table)
      case Err(_) =>
      case Ok((h, used)) =>
        LimitKept(table, h, 0);
        LimitKeptByBlock(s[used..], if s[0] >= 0x40 then Insert(table, h) else table, true);
    }
  }
}
