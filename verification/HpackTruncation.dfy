/** A header block that ends inside a representation is refused, wherever it ends (sections 5 and 6 of
    RFC 7541). */
module HpackTruncation {
  import opened Wrappers
  import opened Octets
  import opened HpackTable
  import opened HpackInteger
  import opened HpackBlocks

  lemma {:induction false} ContinuationOpen(value: nat, k: nat)
    requires k < |ContinuationWire(value)|
    ensures forall i :: 0 <= i < k ==> ContinuationWire(value)[..k][i] >= 128
  {
    if value >= 128 && k > 0 {
      ContinuationOpen(value / 128, k - 1);
      var wire, rest := ContinuationWire(value), ContinuationWire(value / 128);
      assert forall i :: 0 < i < k ==> wire[..k][i] == rest[..k - 1][i - 1];
    }
  }

  lemma CutBehindPrefix(first: Byte, n: nat, value: nat, k: nat)
    requires ValidPrefix(n) && LowBits(first, n) == MaxPrefix(n) && 0 < k <= |ContinuationWire(value)|
    ensures DecodeInteger(([first] + ContinuationWire(value))[..k], n).Err?
  {
    hide MaxPrefix, LowBits, ContinuationWire, DecodeContinuation, DecodeInteger;
    var rest := ContinuationWire(value);
    ContinuationOpen(value, k - 1);
    UnfinishedGroups(rest[..k - 1], 0);
    assert ([first] + rest)[..k] == [first] + rest[..k - 1];
    BehindFullPrefix(first, n, rest[..k - 1]);
  }

  lemma IntegerCut(value: nat, n: nat, mask: Byte, k: nat)
    requires ValidPrefix(n) && LowBitsClear(mask, n) && k < |IntegerWire(value, n, mask)|
    ensures DecodeInteger(IntegerWire(value, n, mask)[..k], n).Err?
  {
    hide MaxPrefix, LowBits, LowBitsClear, Or, ContinuationWire, DecodeContinuation, DecodeInteger, IntegerWire;
    if k > 0 {
      LongWire(value, n, mask);
      CutBehindPrefix(IntegerWire(value, n, mask)[0], n, value - MaxPrefix(n), k);
    } else {
      NothingToDecode(n);
    }
  }

  lemma NothingToDecode(n: nat)
    ensures DecodeInteger([], n).Err?
  {
  }

  /** A wire form of more than one octet has a full prefix. */
  lemma LongWire(value: nat, n: nat, mask: Byte)
    requires ValidPrefix(n) && LowBitsClear(mask, n) && |IntegerWire(value, n, mask)| > 1
    ensures var wire := IntegerWire(value, n, mask);
      value >= MaxPrefix(n) && wire == [wire[0]] + ContinuationWire(value - MaxPrefix(n))
      && LowBits(wire[0], n) == MaxPrefix(n)
  {
    hide MaxPrefix, LowBits, LowBitsClear, Or, ContinuationWire;
    MaskedPrefix(mask, MaxPrefix(n), n);
  }

  lemma StringCut(form: StringForm, k: nat)
    requires |Payload(form)| < Room(0) + 127 && k < |StringWire(form)|
    ensures DecodeString(StringWire(form)[..k]).Err?
  {
    hide Payload, HuffmanText, DecodeInteger, IntegerWire, LowBitsClear;
    assert LowBitsClear(0x80, 7) && LowBitsClear(0, 7) by { ClearMasks(); }
    var mask: Byte := if form.Coded? then 0x80 else 0;
    var head, data := IntegerWire(|Payload(form)|, 7, mask), Payload(form);
    var s := StringWire(form)[..k];
    if k < |head| {
      assert s == head[..k];
      IntegerCut(|data|, 7, mask, k);
    } else {
      assert s == head + data[..k - |head|];
      LengthRoundTrip(|data|, form.Coded?, data[..k - |head|]);
    }
  }

  lemma ClearMasks()
    ensures LowBitsClear(0x80, 7) && LowBitsClear(0x40, 6) && LowBitsClear(0x20, 5)
    ensures LowBitsClear(0, 4) && LowBitsClear(0x10, 4) && LowBitsClear(0, 7)
  {
  }

  lemma CutInThree(a: Bytes, b: Bytes, c: Bytes, k: nat)
    requires k <= |a| + |b| + |c|
    ensures var s := (a + b + c)[..k];
      if k < |a| then s == a[..k]
      else if k < |a| + |b| then s == a + b[..k - |a|] && s[|a|..] == b[..k - |a|]
      else
        && s == a + (b + c[..k - |a| - |b|]) && s[|a|..] == b + c[..k - |a| - |b|]
        && s[|a| + |b|..] == c[..k - |a| - |b|]
  {
  }

  lemma LiteralCut(rep: Representation, table: Table, k: nat)
    requires rep.LiteralField? && Fits(rep) && k < |WireOf(rep)|
    ensures DecodeLiteral(WireOf(rep)[..k], IndexBits(rep.indexing), table).Err?
  {
    hide DecodeString, StringWire, Payload, DecodeInteger, IntegerWire, LowBitsClear, Lookup;
    ClearMasks();
    var n, mask := IndexBits(rep.indexing), IndexMask(rep.indexing);
    var index := if rep.name.AtIndex? then rep.name.index else 0;
    var head, name, value := IntegerWire(index, n, mask), NameWire(rep.name), StringWire(rep.value);
    CutInThree(head, name, value, k);
    var s := WireOf(rep)[..k];
    if k < |head| {
      IntegerCut(index, n, mask, k);
    } else if k < |head| + |name| {
      IndexRoundTrip(index, rep.indexing, name[..k - |head|]);
      StringCut(rep.name.form, k - |head|);
    } else {
      var rest := value[..k - |head| - |name|];
      IndexRoundTrip(index, rep.indexing, name + rest);
      StringCut(rep.value, k - |head| - |name|);
      if rep.name.Spelled? {
        StringRoundTrip(rep.name.form, rest);
      }
    }
  }

  /** A representation that is cut off is refused. */
  lemma RepresentationCut(rep: Representation, table: Table, seen: bool, k: nat)
    requires Fits(rep) && 0 < k < |WireOf(rep)|
    ensures DecodeBlock(WireOf(rep)[..k], table, seen).headers.Err?
  {
    FirstOctetOf(rep, []);
    assert WireOf(rep) + [] == WireOf(rep) && WireOf(rep)[..k][0] == WireOf(rep)[0];
    match rep
    case IndexedField(index) =>
      ClearMasks();
      IntegerCut(index, 7, 0x80, k);
      hide DecodeInteger, WireOf, DecodeLiteral;
    case SizeUpdate(size) =>
      ClearMasks();
      IntegerCut(size, 5, 0x20, k);
      hide DecodeInteger, WireOf, DecodeLiteral;
    case LiteralField(_, _, _) =>
      hide DecodeInteger, WireOf, DecodeLiteral;
      LiteralCut(rep, table, k);
  }

  /** A block is refused if it ends inside a representation, whatever came before. */
  lemma {:induction false} BlockCut(reps: seq<Representation>, rep: Representation, k: nat, table: Table, seen: bool)
    requires AllFitted(reps) && Fits(rep) && 0 < k < |WireOf(rep)|
    ensures DecodeBlock(BlockWire(reps) + WireOf(rep)[..k], table, seen).headers.Err?
    decreases |reps|
  {
    hide WireOf, Insert, Resize, Lookup, NameOf, DecodeBlock, Fits;
    var cut := WireOf(rep)[..k];
    if reps == [] {
      assert BlockWire(reps) + cut == cut;
      RepresentationCut(rep, table, seen, k);
    } else {
      var rest := BlockWire(reps[1..]) + cut;
      assert Fits(reps[0]);
      assert BlockWire(reps) + cut == WireOf(reps[0]) + rest;
      match reps[0]
      case IndexedField(index) =>
        assert index < Room(0) + 127 by { NumbersFit(reps[0]); }
        IndexedStep(index, rest, table, seen);
        BlockCut(reps[1..], rep, k, table, true);
      case SizeUpdate(size) =>
        assert size < Room(0) + 31 by { NumbersFit(reps[0]); }
        SizeUpdateStep(size, rest, table, seen);
        BlockCut(reps[1..], rep, k, Resize(table, size), false);
      case LiteralField(indexing, name, value) =>
        LiteralStep(reps[0], rest, table, seen);
        if NameOf(name, table).Ok? {
          var h := HeaderField(NameOf(name, table).value, value.text);
          BlockCut(reps[1..], rep, k, if indexing == Incremental then Insert(table, h) else table, true);
        }
    }
  }

  lemma NumbersFit(rep: Representation)
    requires Fits(rep)
    ensures rep.IndexedField? ==> rep.index < Room(0) + 127
    ensures rep.SizeUpdate? ==> rep.size < Room(0) + 31
  {
  }
}
