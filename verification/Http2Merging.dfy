/** What the merging loop of `build_request` accepts and what it makes of a field list, said
    without the loop (section 8.3.1 of RFC 9113). */
module Http2Merging {
  import opened Wrappers
  import opened Octets
  import opened HpackTable
  import opened RequestText
  import opened Http2Translation

  function NameAt(fields: seq<HeaderField>, i: nat): Bytes
    requires i < |fields|
  {
    Lower(fields[i].name)
  }

  predicate IsPseudo(name: Bytes) {
    name != [] && name[0] == COLON
  }

  /** No field before this one has its name. */
  predicate FirstOfItsName(fields: seq<HeaderField>, i: nat)
    requires i < |fields|
  {
    forall j :: 0 <= j < i ==> NameAt(fields, j) != NameAt(fields, i)
  }

  /** The rules for one field, among those before it. */
  predicate FieldAllowed(fields: seq<HeaderField>, i: nat)
    requires i < |fields|
  {
    var name, value := NameAt(fields, i), fields[i].value;
    && name != [] && !HasUppercase(fields[i].name) && !HasControl(value)
    && if IsPseudo(name) then
         IsPseudoName(name) && FirstOfItsName(fields, i) && forall j :: 0 <= j < i ==> IsPseudo(NameAt(fields, j))
       else
         && ValidHeaderName(name) && !Forbidden(name, value)
         && (name == ContentLengthName() ==> FirstOfItsName(fields, i) && SizeOf(Trim(value), Decimal).Some?)
  }

  /** Every field follows the rules. */
  ghost predicate FieldsAllowed(fields: seq<HeaderField>) {
    forall i :: 0 <= i < |fields| ==> FieldAllowed(fields, i)
  }

  /** The values of a name, in the order of their fields. */
  function Values(fields: seq<HeaderField>, name: Bytes): seq<Bytes> {
    if fields == [] then []
    else
      var before, last := fields[..|fields| - 1], fields[|fields| - 1];
      if Lower(last.name) == name then Values(before, name) + [last.value] else Values(before, name)
  }

  function Joined(values: seq<Bytes>, separator: Bytes): Bytes
    requires values != []
  {
    if |values| == 1 then values[0]
    else Joined(values[..|values| - 1], separator) + separator + values[|values| - 1]
  }

  /** What the loop's variables hold for a name. */
  ghost predicate Holds(m: Merge, fields: seq<HeaderField>, name: Bytes) {
    var values := Values(fields, name);
    && (IsPseudo(name) ==>
          && (name in m.pseudo <==> values != [])
          && (values != [] ==> values == [m.pseudo[name]])
          && name !in m.headers)
    && (!IsPseudo(name) ==>
          && (name in m.headers <==> values != [])
          && (values != [] ==> m.headers[name] == Joined(values, Separator(name)))
          && name !in m.pseudo)
  }

  ghost predicate Means(m: Merge, fields: seq<HeaderField>) {
    && (forall name :: Holds(m, fields, name))
    && (m.regularSeen <==> exists i :: 0 <= i < |fields| && !IsPseudo(NameAt(fields, i)))
    && (match m.contentLength
        case None => Values(fields, ContentLengthName()) == []
        case Some(n) =>
          Values(fields, ContentLengthName()) != []
              && SizeOf(Trim(Values(fields, ContentLengthName())[0]), Decimal) == Some(n))
  }

  // ----- one more field

  lemma {:induction false} MergeOneMore(m: Merge, fields: seq<HeaderField>, last: HeaderField)
    ensures MergeFields(m, fields + [last]) ==
            match MergeFields(m, fields) case None => None case Some(next) => MergeField(next, last)
    decreases |fields|
  {
    hide MergeField;
    if fields == [] {
      assert fields + [last] == [last] && [last][1..] == [];
      assert MergeField(m, last).Some? ==> MergeFields(MergeField(m, last).value, []) == MergeField(m, last);
    } else {
      assert (fields + [last])[1..] == fields[1..] + [last];
      if MergeField(m, fields[0]).Some? {
        MergeOneMore(MergeField(m, fields[0]).value, fields[1..], last);
      }
    }
  }

  lemma {:induction false} ValuesSeen(fields: seq<HeaderField>, name: Bytes)
    ensures Values(fields, name) != [] <==> exists i :: 0 <= i < |fields| && NameAt(fields, i) == name
  {
    if fields != [] {
      var before := fields[..|fields| - 1];
      ValuesSeen(before, name);
      assert forall i :: 0 <= i < |before| ==> NameAt(before, i) == NameAt(fields, i);
      assert NameAt(fields, |fields| - 1) == Lower(fields[|fields| - 1].name);
    }
  }

  lemma FieldAllowedBefore(before: seq<HeaderField>, last: HeaderField, i: nat)
    requires i < |before|
    ensures FieldAllowed(before + [last], i) <==> FieldAllowed(before, i)
  {
    hide HasUppercase, HasControl, IsPseudoName, ValidHeaderName, Forbidden, SizeOf, Trim, ContentLengthName, Lower;
    var fields := before + [last];
    assert forall j :: 0 <= j < |before| ==> NameAt(fields, j) == NameAt(before, j);
  }

  lemma FieldsAllowedMore(before: seq<HeaderField>, last: HeaderField)
    ensures FieldsAllowed(before + [last]) <==> FieldsAllowed(before) && FieldAllowed(before + [last], |before|)
  {
    hide FieldAllowed;
    forall i | 0 <= i < |before|
      ensures FieldAllowed(before + [last], i) <==> FieldAllowed(before, i)
    {
      FieldAllowedBefore(before, last, i);
    }
  }

  /** The loop accepts a field if and only if the rules allow it. */
  lemma FieldAccepted(m: Merge, before: seq<HeaderField>, last: HeaderField)
    requires Means(m, before)
    ensures MergeField(m, last).Some? <==> FieldAllowed(before + [last], |before|)
  {
    hide HasUppercase, HasControl, ValidHeaderName, Forbidden, SizeOf, Trim, Lower, Separator, Joined, Values;
    var fields := before + [last];
    var name := NameAt(fields, |before|);
    assert forall j :: 0 <= j < |before| ==> NameAt(fields, j) == NameAt(before, j);
    ValuesSeen(before, name);
    ValuesSeen(before, ContentLengthName());
    assert Holds(m, before, name);
    hide ContentLengthName, IsPseudoName;
    SeenBefore(before, fields, name);
  }

  lemma SeenBefore(before: seq<HeaderField>, fields: seq<HeaderField>, name: Bytes)
    requires |fields| == |before| + 1 && fields[..|before|] == before && NameAt(fields, |before|) == name
    ensures FirstOfItsName(fields, |before|) <==> Values(before, name) == []
    ensures (forall j :: 0 <= j < |before| ==> IsPseudo(NameAt(fields, j))) <==>
        !exists i :: 0 <= i < |before| && !IsPseudo(NameAt(before, i))
  {
    ValuesSeen(before, name);
    hide Values, Lower, IsPseudo;
    assert forall j :: 0 <= j < |before| ==> fields[j] == before[j] && NameAt(fields, j) == NameAt(before, j);
  }

  lemma JoinedMore(values: seq<Bytes>, value: Bytes, separator: Bytes)
    ensures values == [] ==> Joined(values + [value], separator) == value
    ensures values != [] ==> Joined(values + [value], separator) == Joined(values, separator) + separator + value
  {
    assert (values + [value])[..|values|] == values;
  }

  lemma HoldsMore(m: Merge, before: seq<HeaderField>, last: HeaderField, name: Bytes)
    requires Means(m, before) && MergeField(m, last).Some?
    ensures Holds(MergeField(m, last).value, before + [last], name)
  {
    hide HasUppercase, HasControl, IsPseudoName, ValidHeaderName, Forbidden, SizeOf, Trim, Lower, Separator, Joined,
         ContentLengthName;
    assert Holds(m, before, name) && Holds(m, before, Lower(last.name));
    assert (before + [last])[..|before|] == before;
    JoinedMore(Values(before, name), last.value, Separator(name));
  }

  lemma MeansMore(m: Merge, before: seq<HeaderField>, last: HeaderField)
    requires Means(m, before) && MergeField(m, last).Some?
    ensures Means(MergeField(m, last).value, before + [last])
  {
    forall name
      ensures Holds(MergeField(m, last).value, before + [last], name)
    {
      HoldsMore(m, before, last, name);
    }
    RegularMore(before, last);
    LengthMore(m, before, last);
    hide Holds, HasUppercase, HasControl, IsPseudoName, ValidHeaderName, Forbidden, SizeOf, Trim, Lower, Separator,
         Joined, Values, ContentLengthName;
  }

  lemma RegularMore(before: seq<HeaderField>, last: HeaderField)
    ensures var fields := before + [last];
            (exists i :: 0 <= i < |fields| && !IsPseudo(NameAt(fields, i)))
            <==> (exists i :: 0 <= i < |before| && !IsPseudo(NameAt(before, i))) || !IsPseudo(Lower(last.name))
  {
    hide Lower, IsPseudo;
    var fields := before + [last];
    assert forall i :: 0 <= i < |before| ==> NameAt(fields, i) == NameAt(before, i);
    assert NameAt(fields, |before|) == Lower(last.name);
  }

  lemma LengthMore(m: Merge, before: seq<HeaderField>, last: HeaderField)
    requires Means(m, before) && MergeField(m, last).Some?
    ensures match MergeField(m, last).value.contentLength
            case None => Values(before + [last], ContentLengthName()) == []
            case Some(n) =>
              var values := Values(before + [last], ContentLengthName());
              values != [] && SizeOf(Trim(values[0]), Decimal) == Some(n)
  {
    assert !IsPseudo(ContentLengthName());
    hide HasUppercase, HasControl, IsPseudoName, ValidHeaderName, Forbidden, SizeOf, Trim, Lower, Separator, Joined,
         ContentLengthName, Holds;
    assert (before + [last])[..|before|] == before;
  }

  // ----- all fields

  /** The loop accepts a field list if and only if every field follows the rules, and then it
      holds, for every name, the one value of a pseudo-header, or all values of a header joined
      in their order, cookies with a semicolon and others with a comma. */
  lemma {:induction false} MergingMeans(fields: seq<HeaderField>)
    ensures MergeFields(NOTHING_MERGED, fields).Some? <==> FieldsAllowed(fields)
    ensures MergeFields(NOTHING_MERGED, fields).Some? ==> Means(MergeFields(NOTHING_MERGED, fields).value, fields)
    decreases |fields|
  {
    hide MergeField, Means, FieldsAllowed;
    if fields == [] {
      NothingMeans();
    } else {
      var before, last := fields[..|fields| - 1], fields[|fields| - 1];
      assert before + [last] == fields;
      MergingMeans(before);
      MergeOneMore(NOTHING_MERGED, before, last);
      FieldsAllowedMore(before, last);
      if MergeFields(NOTHING_MERGED, before).Some? {
        var m := MergeFields(NOTHING_MERGED, before).value;
        FieldAccepted(m, before, last);
        if MergeField(m, last).Some? {
          MeansMore(m, before, last);
        }
      }
    }
  }

  lemma NothingMeans()
    ensures Means(NOTHING_MERGED, []) && FieldsAllowed([])
  {
    hide Lower, ContentLengthName;
  }

  /** The value of a field that occurs once. */
  ghost predicate Only(fields: seq<HeaderField>, name: Bytes, value: Bytes) {
    Values(fields, name) == [value]
  }

  /** The conditions on the whole field list and the body. */
  ghost predicate RequestAllowed(fields: seq<HeaderField>, body: Bytes) {
    && FieldsAllowed(fields)
    && Values(fields, MethodName()) != [] && Values(fields, PathName()) != []
    && (Only(fields, SchemeName(), Ascii("http")) || Only(fields, SchemeName(), Ascii("https")))
    && (Values(fields, ContentLengthName()) != [] ==>
          SizeOf(Trim(Values(fields, ContentLengthName())[0]), Decimal) == Some(|body|))
    && (Values(fields, AuthorityName()) != [] && Values(fields, HostName()) != [] ==>
          Only(fields, AuthorityName(), Joined(Values(fields, HostName()), Separator(HostName()))))
  }

  /** A stream becomes a request if and only if its fields follow the rules, method, path and
      scheme are there, a declared length is that of the body, and a host agrees with the
      authority; the method and the path are then the values of their fields. */
  lemma RequestMeans(fields: seq<HeaderField>, body: Bytes)
    ensures PlanFor(fields, body).Some? <==> RequestAllowed(fields, body)
    ensures PlanFor(fields, body).Some? ==>
      var plan := PlanFor(fields, body).value;
      && Only(fields, MethodName(), plan.verb) && Only(fields, PathName(), plan.path)
      && plan.addedLength == if body != [] && Values(fields, ContentLengthName()) == [] then Some(|body|) else None
  {
    hide FieldsAllowed, MergeField, MergeFields;
    MergingMeans(fields);
    if MergeFields(NOTHING_MERGED, fields).Some? {
      var m := MergeFields(NOTHING_MERGED, fields).value;
      PseudoNames();
      hide MethodName, PathName, SchemeName, AuthorityName, HostName, ContentLengthName, IsPseudo, Joined,
           Separator, Values, Trim, SizeOf;
      assert Holds(m, fields, MethodName()) && Holds(m, fields, PathName()) && Holds(m, fields, SchemeName());
      assert Holds(m, fields, AuthorityName()) && Holds(m, fields, HostName());
    }
  }

  lemma PseudoNames()
    ensures IsPseudo(MethodName()) && IsPseudo(PathName()) && IsPseudo(SchemeName()) && IsPseudo(AuthorityName())
    ensures !IsPseudo(HostName()) && !IsPseudo(ContentLengthName())
  {
  }

  /** And each header of the request is the joined values of its name, except that the host is
      the authority if there is one. */
  lemma RequestHeadersMean(fields: seq<HeaderField>, body: Bytes, name: Bytes)
    requires PlanFor(fields, body).Some? && !IsPseudo(name)
    ensures var plan := PlanFor(fields, body).value;
      if name == HostName() && Values(fields, AuthorityName()) != [] then
        name in plan.headers && Only(fields, AuthorityName(), plan.headers[name])
      else
        && (name in plan.headers <==> Values(fields, name) != [])
        && (name in plan.headers ==> plan.headers[name] == Joined(Values(fields, name), Separator(name)))
  {
    hide FieldsAllowed, MergeField, MergeFields;
    MergingMeans(fields);
    var m := MergeFields(NOTHING_MERGED, fields).value;
    PseudoNames();
    hide MethodName, PathName, SchemeName, AuthorityName, HostName, ContentLengthName, IsPseudo, Joined, Separator,
         Values, Trim, SizeOf;
    assert Holds(m, fields, AuthorityName()) && Holds(m, fields, name);
  }
}
