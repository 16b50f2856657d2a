/** Which octets the header encoder makes of a field (section 6 and appendix A of RFC 7541). */
module HpackEncoding {
  import opened Wrappers
  import opened Octets
  import opened HpackErrors
  import opened HpackTable
  import opened HpackInteger
  import opened HpackBlocks
  import opened HpackIndexing
  import opened Hpack

  // ----- the choice

  predicate NamedAs(name: Bytes, index: nat) {
    1 <= index <= 61 && name == Ascii(ListedName(index))
  }

  predicate ListedAs(h: HeaderField, index: nat) {
    NamedAs(h.name, index) && h.value == Ascii(ListedValue(index))
  }

  lemma EntryIsListed(index: nat)
    requires 1 <= index <= 61
    ensures StaticTable()[index - 1] == HeaderField(Ascii(ListedName(index)), Ascii(ListedValue(index)))
  {
    hide StaticTable, ListedName, ListedValue, Ascii;
    StaticIndices(Table([], 0), index);
  }

  lemma {:induction false} ExactIsFirst(h: HeaderField, from: nat)
    requires from <= 61
    ensures var found := ExactIndex(StaticTable(), h, from);
      && (found > 0 ==> found > from && ListedAs(h, found) && forall j :: from < j < found ==> !ListedAs(h, j))
      && (found == 0 ==> forall j :: from < j <= 61 ==> !ListedAs(h, j))
    decreases 61 - from
  {
    hide StaticTable, ListedName, ListedValue, Ascii;
    if from < 61 {
      EntryIsListed(from + 1);
      ExactIsFirst(h, from + 1);
    }
  }

  lemma {:induction false} NameIsFirst(name: Bytes, from: nat)
    requires from <= 61
    ensures var found := NameIndex(StaticTable(), name, from);
      && (found > 0 ==> found > from && NamedAs(name, found) && forall j :: from < j < found ==> !NamedAs(name, j))
      && (found == 0 ==> forall j :: from < j <= 61 ==> !NamedAs(name, j))
    decreases 61 - from
  {
    hide StaticTable, ListedName, ListedValue, Ascii;
    if from < 61 {
      EntryIsListed(from + 1);
      NameIsFirst(name, from + 1);
    }
  }

  /** The representation is the first listed entry that is the field; or else a literal that is not
      indexed, with the first listed entry that has the name, or with the name. */
  predicate RightChoice(h: HeaderField, rep: Representation) {
    match rep
    case IndexedField(index) => ListedAs(h, index) && forall j :: 1 <= j < index ==> !ListedAs(h, j)
    case LiteralField(indexing, name, value) =>
      && indexing == Without && value == Plain(h.value) && (forall j :: 1 <= j <= 61 ==> !ListedAs(h, j))
      && (match name
          case AtIndex(index) => NamedAs(h.name, index) && forall j :: 1 <= j < index ==> !NamedAs(h.name, j)
          case Spelled(form) => form == Plain(h.name) && forall j :: 1 <= j <= 61 ==> !NamedAs(h.name, j))
    case SizeUpdate(_) => false
  }

  lemma OneChoice(h: HeaderField, a: Representation, b: Representation)
    requires RightChoice(h, a) && RightChoice(h, b)
    ensures a == b
  {
    hide ListedName, ListedValue, Ascii, ListedAs, NamedAs;
    ListedIsNumbered(h);
    if a.IndexedField? {
      OneIndex(h, a.index, b);
    }
    if b.IndexedField? {
      OneIndex(h, b.index, a);
    }
  }

  lemma ListedIsNumbered(h: HeaderField)
    ensures forall i :: ListedAs(h, i) || NamedAs(h.name, i) ==> 1 <= i <= 61
  {
    hide ListedName, ListedValue, Ascii;
  }

  lemma OneIndex(h: HeaderField, index: nat, b: Representation)
    requires RightChoice(h, IndexedField(index)) && RightChoice(h, b)
    ensures b == IndexedField(index)
  {
    ListedIsNumbered(h);
    hide ListedName, ListedValue, Ascii, ListedAs, NamedAs;
  }

  /** The encoder's choice is that, and nothing else. */
  lemma ChosenExactly(h: HeaderField, rep: Representation)
    ensures Chosen(h) == rep <==> RightChoice(h, rep)
  {
    ChosenIsRight(h);
    hide Chosen, RightChoice;
    if RightChoice(h, rep) {
      OneChoice(h, rep, Chosen(h));
    }
  }

  lemma ChosenIsRight(h: HeaderField)
    ensures RightChoice(h, Chosen(h))
  {
    ExactIsFirst(h, 0);
    NameIsFirst(h.name, 0);
    hide StaticTable, ListedAs, NamedAs;
  }

  // ----- the octets, for short texts

  lemma LongPrefix(index: nat)
    requires 15 <= index <= 61
    ensures IntegerWire(index, 4, 0) == [15, index - 15]
  {
    Masks();
    MaskedPrefix(0, 15, 4);
    hide Or, LowBits, LowBitsClear;
    assert ContinuationWire(index - 15) == [index - 15];
  }

  /** The octets of a field with a choice of representation. */
  function OctetsOf(h: HeaderField, rep: Representation): Bytes
    requires |h.name| < 127 && |h.value| < 127
  {
    match rep
    case IndexedField(index) => if index < 127 then [0x80 + index] else []
    case LiteralField(_, AtIndex(index), _) =>
      if index < 15 then [index, |h.value|] + h.value
      else if index <= 61 then [15, index - 15, |h.value|] + h.value else []
    case LiteralField(_, Spelled(_), _) => [0, |h.name|] + h.name + [|h.value|] + h.value
    case SizeUpdate(_) => []
  }

  /** A field is encoded in these octets, and only a field without a name is refused. */
  lemma EncodedOctets(h: HeaderField, rep: Representation)
    requires |h.name| < 127 && |h.value| < 127 && RightChoice(h, rep)
    ensures EncodedBlock([h]) == if h.name == [] then Err(EmptyHeaderName) else Ok(OctetsOf(h, rep))
  {
    ChosenExactly(h, rep);
    assert [h][1..] == [] && EncodedBlock([]) == Ok([]);
    hide Chosen, ListedAs, StringWire, IntegerWire, LowBitsClear;
    assert WireOf(rep) + [] == WireOf(rep);
    if h.name != [] {
      WireIsOctets(h, rep);
    }
  }

  lemma WireIsOctets(h: HeaderField, rep: Representation)
    requires |h.name| < 127 && |h.value| < 127 && RightChoice(h, rep)
    ensures WireOf(rep) == OctetsOf(h, rep)
  {
    hide ListedName, ListedValue, Ascii, StringWire, IntegerWire, LowBitsClear;
    Masks();
    ShortString(h.value);
    match rep
    case IndexedField(index) => ShortPrefix(0x80, 7, index);
    case LiteralField(_, AtIndex(index), _) =>
      if index < 15 {
        ShortPrefix(0, 4, index);
      } else {
        LongPrefix(index);
      }
    case LiteralField(_, Spelled(_), _) =>
      ShortPrefix(0, 4, 0);
      ShortString(h.name);
    case SizeUpdate(_) =>
  }
}
