/** What an index stands for (section 2.3 and appendix A of RFC 7541): the static entries one by
    one, and over any insertions the entries that have not been evicted, newest first. */
module HpackIndexing {
  import opened Wrappers
  import opened Octets
  import opened HpackErrors
  import opened HpackTable
  import opened HpackInteger
  import opened HpackBlocks

  // ----- the static indices

  /** The entries of appendix A by their numbers. */
  function ListedName(index: nat): string {
    match index
    case 1 => ":authority" case 2 => ":method" case 3 => ":method" case 4 => ":path" case 5 => ":path"
    case 6 => ":scheme" case 7 => ":scheme" case 8 => ":status" case 9 => ":status" case 10 => ":status"
    case 11 => ":status" case 12 => ":status" case 13 => ":status" case 14 => ":status" case 15 => "accept-charset"
    case 16 => "accept-encoding" case 17 => "accept-language" case 18 => "accept-ranges" case 19 => "accept"
    case 20 => "access-control-allow-origin" case 21 => "age" case 22 => "allow" case 23 => "authorization"
    case 24 => "cache-control" case 25 => "content-disposition" case 26 => "content-encoding"
    case 27 => "content-language" case 28 => "content-length" case 29 => "content-location"
    case 30 => "content-range" case 31 => "content-type" case 32 => "cookie" case 33 => "date" case 34 => "etag"
    case 35 => "expect" case 36 => "expires" case 37 => "from" case 38 => "host" case 39 => "if-match"
    case 40 => "if-modified-since" case 41 => "if-none-match" case 42 => "if-range" case 43 => "if-unmodified-since"
    case 44 => "last-modified" case 45 => "link" case 46 => "location" case 47 => "max-forwards"
    case 48 => "proxy-authenticate" case 49 => "proxy-authorization" case 50 => "range" case 51 => "referer"
    case 52 => "refresh" case 53 => "retry-after" case 54 => "server" case 55 => "set-cookie"
    case 56 => "strict-transport-security" case 57 => "transfer-encoding" case 58 => "user-agent" case 59 => "vary"
    case 60 => "via" case 61 => "www-authenticate"
    case _ => ""
  }

  function ListedValue(index: nat): string {
    match index
    case 2 => "GET" case 3 => "POST" case 4 => "/" case 5 => "/index.html" case 6 => "http" case 7 => "https"
    case 8 => "200" case 9 => "204" case 10 => "206" case 11 => "304" case 12 => "400" case 13 => "404"
    case 14 => "500" case 16 => "gzip, deflate"
    case _ => ""
  }

  lemma ListedPseudoEntries(index: nat)
    requires 1 <= index <= 14
    ensures PseudoEntries()[index - 1] == Field(ListedName(index), ListedValue(index))
  {
    hide Ascii, Field;
  }

  lemma ListedEntriesAToC(index: nat)
    requires 15 <= index <= 32
    ensures EntriesAToC()[index - 15] == Field(ListedName(index), ListedValue(index))
  {
    hide Ascii, Field;
  }

  lemma ListedEntriesDToP(index: nat)
    requires 33 <= index <= 49
    ensures EntriesDToP()[index - 33] == Field(ListedName(index), ListedValue(index))
  {
    hide Ascii, Field;
  }

  lemma ListedEntriesRToW(index: nat)
    requires 50 <= index <= 61
    ensures EntriesRToW()[index - 50] == Field(ListedName(index), ListedValue(index))
  {
    hide Ascii, Field;
  }

  /** Index zero is an error, and those from 1 to 61 are the listed entries, whatever the dynamic
      table holds. */
  lemma StaticIndices(t: Table, index: nat)
    requires index <= 61
    ensures Lookup(t, index) ==
            if index == 0 then Err(IndexZero)
            else Ok(HeaderField(Ascii(ListedName(index)), Ascii(ListedValue(index))))
  {
    hide PseudoEntries, EntriesAToC, EntriesDToP, EntriesRToW, ListedName, ListedValue, Ascii;
    if 1 <= index <= 14 {
      ListedPseudoEntries(index);
    } else if 15 <= index <= 32 {
      ListedEntriesAToC(index);
    } else if 33 <= index <= 49 {
      ListedEntriesDToP(index);
    } else if index >= 50 {
      ListedEntriesRToW(index);
    }
  }

  // ----- the dynamic indices

  /** The octets of the names and values. */
  function TextSize(entries: seq<HeaderField>): nat {
    if entries == [] then 0 else |entries[0].name| + |entries[0].value| + TextSize(entries[1..])
  }

  lemma {:induction false} SizeMeans(entries: seq<HeaderField>)
    ensures TotalSize(entries) == TextSize(entries) + 32 * |entries|
  {
    if entries != [] {
      SizeMeans(entries[1..]);
    }
  }

  /** The first `k` entries take up no more than `room`, with 32 octets for each beside its text. */
  predicate FitUpTo(entries: seq<HeaderField>, k: nat, room: nat) {
    k <= |entries| && TextSize(entries[..k]) + 32 * k <= room
  }

  lemma FitHolds(entries: seq<HeaderField>, room: nat, k: nat)
    requires 0 < k
    ensures k <= |Fit(entries, room)| <==> FitUpTo(entries, k, room)
    ensures k <= |Fit(entries, room)| ==> k <= |entries| && Fit(entries, room)[k - 1] == entries[k - 1]
  {
    FitIsLongestPrefix(entries, room, 0);
    if k <= |entries| {
      FitIsLongestPrefix(entries, room, k);
      SizeMeans(entries[..k]);
    }
  }

  /** What dynamic index `61 + k` should be, if `entries` have been there, newest first: entry `k`
      as long as there is room up to it. */
  function Kept(entries: seq<HeaderField>, k: nat, room: nat): Result<HeaderField, HpackError>
    requires k > 0
  {
    if FitUpTo(entries, k, room) then Ok(entries[k - 1]) else Err(DynamicIndexOutOfRange)
  }

  lemma LookupFit(entries: seq<HeaderField>, room: nat, k: nat)
    requires 0 < k
    ensures Lookup(Table(Fit(entries, room), room), 61 + k) == Kept(entries, k, room)
  {
    hide StaticTable;
    FitHolds(entries, room, k);
  }

  /** After an insertion index 62 is the new entry, if it fits at all, and every older one has moved
      up by one, as long as there is room. */
  lemma InsertedIsNewest(t: Table, h: HeaderField, k: nat)
    requires 0 < k
    ensures Insert(t, h).maxSize == t.maxSize
    ensures Lookup(Insert(t, h), 62) ==
            if |h.name| + |h.value| + 32 <= t.maxSize then Ok(h) else Err(DynamicIndexOutOfRange)
    ensures Lookup(Insert(t, h), 62 + k).Ok? ==> Lookup(Insert(t, h), 62 + k) == Lookup(t, 61 + k)
    ensures Lookup(t, 61 + k).Ok? ==>
              (Lookup(Insert(t, h), 62 + k).Ok?
               <==> |h.name| + |h.value| + 32 + TextSize(t.entries[..k]) + 32 * k <= t.maxSize)
  {
    hide StaticTable;
    var entries := [h] + t.entries;
    LookupFit(entries, t.maxSize, 1);
    LookupFit(entries, t.maxSize, k + 1);
    assert entries[..1] == [h] && TextSize([h][1..]) == 0;
    if k <= |t.entries| {
      assert entries[..k + 1] == [h] + t.entries[..k] && entries[..k + 1][1..] == t.entries[..k];
    }
  }

  /** A size update keeps what there is room for, under the same indices. */
  lemma ResizedKeeps(t: Table, maxSize: nat, k: nat)
    requires 0 < k
    ensures Resize(t, maxSize).maxSize == maxSize
    ensures Lookup(Resize(t, maxSize), 61 + k)
        == if FitUpTo(t.entries, k, maxSize) then Lookup(t, 61 + k) else Err(DynamicIndexOutOfRange)
  {
    hide StaticTable;
    LookupFit(t.entries, maxSize, k);
  }

  // ----- over any insertions

  function InsertAll(t: Table, fields: seq<HeaderField>): Table
    decreases |fields|
  {
    if fields == [] then t else Insert(InsertAll(t, fields[..|fields| - 1]), fields[|fields| - 1])
  }

  /** All that has ever been in the table, newest first. */
  function Ever(t: Table, fields: seq<HeaderField>): seq<HeaderField>
    decreases |fields|
  {
    if fields == [] then t.entries else [fields[|fields| - 1]] + Ever(t, fields[..|fields| - 1])
  }

  lemma {:induction false} FitTwice(entries: seq<HeaderField>, room: nat, less: nat)
    requires less <= room
    ensures Fit(Fit(entries, room), less) == Fit(entries, less)
    decreases |entries|
  {
    if entries != [] && EntrySize(entries[0]) <= less {
      FitTwice(entries[1..], room - EntrySize(entries[0]), less - EntrySize(entries[0]));
    }
  }

  lemma {:induction false} EverFits(t: Table, fields: seq<HeaderField>)
    requires WithinLimit(t)
    ensures InsertAll(t, fields) == Table(Fit(Ever(t, fields), t.maxSize), t.maxSize)
    decreases |fields|
  {
    if fields == [] {
      AllFit(t.entries, t.maxSize);
    } else {
      var before, last := fields[..|fields| - 1], fields[|fields| - 1];
      EverFits(t, before);
      var ever := Ever(t, before);
      assert ([last] + Fit(ever, t.maxSize))[1..] == Fit(ever, t.maxSize) && ([last] + ever)[1..] == ever;
      if EntrySize(last) <= t.maxSize {
        FitTwice(ever, t.maxSize, t.maxSize - EntrySize(last));
      }
    }
  }

  /** Over any list of insertions index `61 + k` is the `k`-th newest of all the entries that have
      ever been there, if it and the newer ones fit together, and an error otherwise. */
  lemma IndexOverInsertions(t: Table, fields: seq<HeaderField>, k: nat)
    requires WithinLimit(t) && 0 < k
    ensures Lookup(InsertAll(t, fields), 61 + k) == Kept(Ever(t, fields), k, t.maxSize)
  {
    hide StaticTable;
    EverFits(t, fields);
    LookupFit(Ever(t, fields), t.maxSize, k);
  }

  // ----- in a block

  /** Literals that are added to the table, spelled out in full. */
  function Literals(fields: seq<HeaderField>): (r: seq<Representation>)
    ensures |r| == |fields|
    ensures forall i :: 0 <= i < |r| ==>
        r[i] == LiteralField(Incremental, Spelled(Plain(fields[i].name)), Plain(fields[i].value))
  {
    seq(|fields|, i requires 0 <= i < |fields| =>
        LiteralField(Incremental, Spelled(Plain(fields[i].name)), Plain(fields[i].value)))
  }

  lemma {:induction false} InsertAllFromFirst(t: Table, fields: seq<HeaderField>)
    requires fields != []
    ensures InsertAll(t, fields) == InsertAll(Insert(t, fields[0]), fields[1..])
    decreases |fields|
  {
    hide Insert;
    if |fields| > 1 {
      var before := fields[..|fields| - 1];
      InsertAllFromFirst(t, before);
      assert fields[1..][..|fields| - 2] == before[1..];
    }
  }

  lemma NothingInserted(t: Table)
    ensures InsertAll(t, []) == t
  {
  }

  lemma {:induction false} InterpretLiterals(fields: seq<HeaderField>, more: seq<Representation>, t: Table, seen: bool)
    ensures var rest := Interpret(more, InsertAll(t, fields), seen || fields != []);
      Interpret(Literals(fields) + more, t, seen)
      == if rest.headers.Ok? then BlockResult(Ok(fields + rest.headers.value), rest.table) else rest
    decreases |fields|
  {
    hide Insert, Lookup, Resize, InsertAll;
    var rest := Interpret(more, InsertAll(t, fields), seen || fields != []);
    if fields == [] {
      NothingInserted(t);
      assert Literals(fields) + more == more;
      assert rest.headers.Ok? ==> fields + rest.headers.value == rest.headers.value;
    } else {
      var h, later := fields[0], fields[1..];
      InsertAllFromFirst(t, fields);
      assert Literals(later) == Literals(fields)[1..];
      assert (Literals(fields) + more)[1..] == Literals(later) + more;
      InterpretLiterals(later, more, Insert(t, h), true);
      assert rest.headers.Ok? ==> [h] + (later + rest.headers.value) == fields + rest.headers.value;
    }
  }

  lemma InterpretIndex(index: nat, t: Table, seen: bool)
    ensures var found := Lookup(t, index);
      Interpret([IndexedField(index)], t, seen)
      == BlockResult(if found.Ok? then Ok([found.value]) else Err(found.error), t)
  {
    hide Lookup;
    var reps := [IndexedField(index)];
    assert reps[1..] == [] && Interpret([], t, true) == BlockResult(Ok([]), t);
    assert forall found: HeaderField :: [found] + [] == [found];
  }

  predicate ShortTexts(fields: seq<HeaderField>) {
    forall i :: 0 <= i < |fields| ==> |fields[i].name| < 0x1000_0000 && |fields[i].value| < 0x1000_0000
  }

  /** A block that adds fields to the table and then refers to index `61 + k` gives the fields and
      the `k`-th newest of all entries, or the error where that one has been evicted. */
  lemma LiteralsThenIndex(fields: seq<HeaderField>, k: nat, t: Table)
    requires WithinLimit(t) && 0 < k < 0x1000_0000 && ShortTexts(fields)
    ensures var found := Kept(Ever(t, fields), k, t.maxSize);
      DecodeBlock(BlockWire(Literals(fields) + [IndexedField(61 + k)]), t, false)
      == BlockResult(if found.Ok? then Ok(fields + [found.value]) else Err(found.error), InsertAll(t, fields))
  {
    var last := [IndexedField(61 + k)];
    var reps := Literals(fields) + last;
    forall i | 0 <= i < |reps|
      ensures Fits(reps[i])
    {
    }
    hide Lookup, Insert, Kept, DecodeBlock, BlockWire, InsertAll, Ever, Interpret, Fits;
    DecoderRefinesInterpreter(reps, t, false);
    InterpretLiterals(fields, last, t, false);
    InterpretIndex(61 + k, InsertAll(t, fields), fields != []);
    IndexOverInsertions(t, fields, k);
  }

  /** In octets: a literal with indexing, and then 0xBE. */
  lemma AddedIsIndex62(name: Bytes, value: Bytes, t: Table)
    requires WithinLimit(t) && |name| + |value| + 32 <= t.maxSize
    requires |name| < 127 && |value| < 127
    ensures var field := HeaderField(name, value);
      DecodeBlock([0x40, |name|] + name + [|value|] + value + [0xBE], t, false)
      == BlockResult(Ok([field, field]), Insert(t, field))
  {
    hide WireOf, DecodeBlock, Insert, Literals, Kept;
    var h := HeaderField(name, value);
    ShortLiteral(h);
    IndexOctet();
    OneLiteral(h);
    LiteralsThenIndex([h], 1, t);
    KeptFirst(h, t);
    assert [h] + [h] == [h, h];
  }

  lemma OneLiteral(h: HeaderField)
    ensures var literal := LiteralField(Incremental, Spelled(Plain(h.name)), Plain(h.value));
            BlockWire(Literals([h]) + [IndexedField(62)]) == WireOf(literal) + WireOf(IndexedField(62))
  {
    hide WireOf;
    var literal, index := LiteralField(Incremental, Spelled(Plain(h.name)), Plain(h.value)), IndexedField(62);
    var reps := Literals([h]) + [index];
    assert reps == [literal, index] && reps[1..] == [index] && [index][1..] == [];
    assert BlockWire([]) == [] && WireOf(index) + [] == WireOf(index);
  }

  lemma KeptFirst(h: HeaderField, t: Table)
    requires |h.name| + |h.value| + 32 <= t.maxSize
    ensures Kept(Ever(t, [h]), 1, t.maxSize) == Ok(h) && InsertAll(t, [h]) == Insert(t, h)
  {
    hide Insert;
    assert [h][..0] == [] && Ever(t, [h]) == [h] + t.entries && ([h] + t.entries)[..1] == [h];
    assert TextSize([h]) == |h.name| + |h.value| by { assert [h][1..] == []; }
    assert InsertAll(t, []) == t;
  }

  lemma Masks()
    ensures LowBitsClear(0x80, 7) && LowBitsClear(0x40, 6) && LowBitsClear(0x20, 5)
    ensures LowBitsClear(0, 4) && LowBitsClear(0x10, 4) && LowBitsClear(0, 7)
  {
  }

  lemma ShortPrefix(mask: Byte, n: nat, index: nat)
    requires ValidPrefix(n) && LowBitsClear(mask, n) && index < MaxPrefix(n)
    ensures mask + index < 256 && IntegerWire(index, n, mask) == [mask + index]
  {
    MaskedPrefix(mask, index, n);
    OrOfOctets(mask, index, 8);
    hide Or, LowBits, LowBitsClear;
  }

  lemma ShortString(text: Bytes)
    requires |text| < 127
    ensures StringWire(Plain(text)) == [|text|] + text
  {
    hide IntegerWire, LowBitsClear;
    Masks();
    ShortPrefix(0, 7, |text|);
  }

  lemma ShortLiteral(h: HeaderField)
    requires |h.name| < 127 && |h.value| < 127
    ensures WireOf(LiteralField(Incremental, Spelled(Plain(h.name)), Plain(h.value)))
        == [0x40, |h.name|] + h.name + [|h.value|] + h.value
  {
    hide IntegerWire, LowBitsClear, StringWire;
    Masks();
    ShortPrefix(0x40, 6, 0);
    ShortString(h.name);
    ShortString(h.value);
  }

  lemma IndexOctet()
    ensures WireOf(IndexedField(62)) == [0xBE]
  {
    hide IntegerWire, LowBitsClear;
    Masks();
    ShortPrefix(0x80, 7, 62);
  }

  // ----- short forms in octets (section 6 of RFC 7541)

  /** 0x80 and an index: that entry. */
  lemma IndexedForm(index: nat, more: Bytes, t: Table, seen: bool)
    requires index < 127
    ensures var found := Lookup(t, index);
      DecodeBlock([0x80 + index] + more, t, seen)
      == if found.Ok? then DecodeBlock(more, t, true).Behind(found.value) else BlockResult(Err(found.error), t)
  {
    hide Lookup, DecodeBlock, IntegerWire, LowBitsClear;
    Masks();
    ShortPrefix(0x80, 7, index);
    IndexedStep(index, more, t, seen);
  }

  lemma LiteralIsFit(indexing: Indexing, index: nat, value: Bytes)
    requires |value| < 127 && 0 < index && index < (if indexing == Incremental then 63 else 15)
    ensures Fits(LiteralField(indexing, AtIndex(index), Plain(value)))
  {
  }

  lemma LiteralWire(indexing: Indexing, index: nat, value: Bytes)
    requires |value| < 127 && 0 < index && index < (if indexing == Incremental then 63 else 15)
    ensures var rep := LiteralField(indexing, AtIndex(index), Plain(value));
            Fits(rep) && WireOf(rep) == [IndexMask(indexing) + index, |value|] + value
  {
    LiteralIsFit(indexing, index, value);
    hide StringWire, IntegerWire, LowBitsClear, Fits;
    Masks();
    ShortPrefix(IndexMask(indexing), IndexBits(indexing), index);
    ShortString(value);
  }

  lemma LiteralAt(rep: Representation, index: nat, wire: Bytes, more: Bytes, t: Table, seen: bool)
    requires rep.LiteralField? && rep.name == AtIndex(index) && Fits(rep) && WireOf(rep) == wire
    ensures var found := Lookup(t, index);
      DecodeBlock(wire + more, t, seen) ==
      if found.Err? then BlockResult(Err(found.error), t)
      else
        var field := HeaderField(found.value.name, rep.value.text);
        DecodeBlock(more, if rep.indexing == Incremental then Insert(t, field) else t, true).Behind(field)
  {
    hide Lookup, DecodeBlock, Insert, WireOf, Fits;
    LiteralStep(rep, more, t, seen);
  }

  /** 0x40 and the index of a name, and a value: a field that is added to the table. Zero or 0x10
      and such an index: a field that is not. */
  lemma LiteralForm(indexing: Indexing, index: nat, value: Bytes, more: Bytes, t: Table, seen: bool)
    requires |value| < 127 && 0 < index && index < (if indexing == Incremental then 63 else 15)
    ensures var found := Lookup(t, index);
      var mark := match indexing case Incremental => 0x40 case Without => 0 case Never => 0x10;
      DecodeBlock([mark + index, |value|] + value + more, t, seen) ==
      if found.Err? then BlockResult(Err(found.error), t)
      else
        var field := HeaderField(found.value.name, value);
        DecodeBlock(more, if indexing == Incremental then Insert(t, field) else t, true).Behind(field)
  {
    hide Lookup, DecodeBlock, Insert, WireOf, Fits, IndexMask;
    LiteralWire(indexing, index, value);
    MaskIsMark(indexing);
    var mark := match indexing case Incremental => 0x40 case Without => 0 case Never => 0x10;
    var rep := LiteralField(indexing, AtIndex(index), Plain(value));
    LiteralAt(rep, index, [mark + index, |value|] + value, more, t, seen);
  }

  lemma MaskIsMark(indexing: Indexing)
    ensures IndexMask(indexing) == match indexing case Incremental => 0x40 case Without => 0 case Never => 0x10
  {
  }

  /** 0x20 and a size, before any field: a size update. */
  lemma SizeUpdateForm(size: nat, more: Bytes, t: Table, seen: bool)
    requires size < 31
    ensures DecodeBlock([0x20 + size] + more, t, seen)
        == if seen then BlockResult(Err(LateSizeUpdate), t) else DecodeBlock(more, Resize(t, size), false)
  {
    hide DecodeBlock, Resize, IntegerWire, LowBitsClear;
    Masks();
    ShortPrefix(0x20, 5, size);
    SizeUpdateStep(size, more, t, seen);
  }
}
