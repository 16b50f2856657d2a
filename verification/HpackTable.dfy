/** The static table (appendix A of RFC 7541) and the dynamic table (sections 2.3 and 4). */
module HpackTable {
  import opened Wrappers
  import opened Octets
  import opened HpackErrors

  datatype HeaderField = HeaderField(name: Bytes, value: Bytes)

  function Field(name: string, value: string): HeaderField {
    HeaderField(Ascii(name), Ascii(value))
  }

  const STATIC_ENTRIES: nat := 61

  /** The entries 1 to 14. */
  function PseudoEntries(): (r: seq<HeaderField>)
    ensures |r| == 14
  {
    [
      Field(":authority", ""), Field(":method", "GET"), Field(":method", "POST"), Field(":path", "/"),
      Field(":path", "/index.html"), Field(":scheme", "http"), Field(":scheme", "https"), Field(":status", "200"),
      Field(":status", "204"), Field(":status", "206"), Field(":status", "304"), Field(":status", "400"),
      Field(":status", "404"), Field(":status", "500")
    ]
  }

  /** The entries 15 to 32. */
  function EntriesAToC(): (r: seq<HeaderField>)
    ensures |r| == 18
  {
    [
      Field("accept-charset", ""), Field("accept-encoding", "gzip, deflate"), Field("accept-language", ""),
      Field("accept-ranges", ""), Field("accept", ""), Field("access-control-allow-origin", ""), Field("age", ""),
      Field("allow", ""), Field("authorization", ""), Field("cache-control", ""), Field("content-disposition", ""),
      Field("content-encoding", ""), Field("content-language", ""), Field("content-length", ""),
      Field("content-location", ""), Field("content-range", ""), Field("content-type", ""), Field("cookie", "")
    ]
  }

  /** The entries 33 to 49. */
  function EntriesDToP(): (r: seq<HeaderField>)
    ensures |r| == 17
  {
    [
      Field("date", ""), Field("etag", ""), Field("expect", ""), Field("expires", ""), Field("from", ""),
      Field("host", ""), Field("if-match", ""), Field("if-modified-since", ""), Field("if-none-match", ""),
      Field("if-range", ""), Field("if-unmodified-since", ""), Field("last-modified", ""), Field("link", ""),
      Field("location", ""), Field("max-forwards", ""), Field("proxy-authenticate", ""),
      Field("proxy-authorization", "")
    ]
  }

  /** The entries 50 to 61. */
  function EntriesRToW(): (r: seq<HeaderField>)
    ensures |r| == 12
  {
    [
      Field("range", ""), Field("referer", ""), Field("refresh", ""), Field("retry-after", ""),
      Field("server", ""), Field("set-cookie", ""), Field("strict-transport-security", ""),
      Field("transfer-encoding", ""), Field("user-agent", ""), Field("vary", ""), Field("via", ""),
      Field("www-authenticate", "")
    ]
  }

  function StaticTable(): (r: seq<HeaderField>)
    ensures |r| == STATIC_ENTRIES
  {
    PseudoEntries() + EntriesAToC() + EntriesDToP() + EntriesRToW()
  }

  // ----- the abstract dynamic table, newest entry first

  datatype Table = Table(entries: seq<HeaderField>, maxSize: nat)

  function EntrySize(h: HeaderField): nat {
    |h.name| + |h.value| + 32
  }

  function TotalSize(entries: seq<HeaderField>): nat {
    if entries == [] then 0 else EntrySize(entries[0]) + TotalSize(entries[1..])
  }

  /** The longest prefix, newest first, that fits into `room`. */
  function Fit(entries: seq<HeaderField>, room: nat): seq<HeaderField> {
    if entries == [] || EntrySize(entries[0]) > room then []
    else [entries[0]] + Fit(entries[1..], room - EntrySize(entries[0]))
  }

  /** The size limit holds. */
  ghost predicate WithinLimit(t: Table) {
    TotalSize(t.entries) <= t.maxSize
  }

  /** Adding an entry, with whatever eviction makes room for it. */
  function Insert(t: Table, h: HeaderField): Table {
    Table(Fit([h] + t.entries, t.maxSize), t.maxSize)
  }

  function Resize(t: Table, maxSize: nat): Table {
    Table(Fit(t.entries, maxSize), maxSize)
  }

  /** The entry at an index of the combined address space. */
  function Lookup(t: Table, index: nat): Result<HeaderField, HpackError> {
    if index == 0 then Err(IndexZero)
    else if index <= STATIC_ENTRIES then Ok(StaticTable()[index - 1])
    else if index - STATIC_ENTRIES - 1 < |t.entries| then Ok(t.entries[index - STATIC_ENTRIES - 1])
    else Err(DynamicIndexOutOfRange)
  }

  /** `Fit` keeps exactly the prefixes that fit. */
  lemma {:induction false} FitIsLongestPrefix(entries: seq<HeaderField>, room: nat, k: nat)
    requires k <= |entries|
    ensures |Fit(entries, room)| <= |entries| && Fit(entries, room) == entries[..|Fit(entries, room)|]
    ensures TotalSize(entries[..k]) <= room <==> k <= |Fit(entries, room)|
  {
    if entries != [] {
      var rest := entries[1..];
      assert k > 0 ==> entries[..k] == [entries[0]] + rest[..k - 1];
      if EntrySize(entries[0]) <= room {
        FitIsLongestPrefix(rest, room - EntrySize(entries[0]), if k == 0 then 0 else k - 1);
        var n := |Fit(rest, room - EntrySize(entries[0]))|;
        assert [entries[0]] + rest[..n] == entries[..n + 1];
      }
    }
  }

  lemma FitWithinRoom(entries: seq<HeaderField>, room: nat)
    ensures TotalSize(Fit(entries, room)) <= room
  {
    FitIsLongestPrefix(entries, room, 0);
    FitIsLongestPrefix(entries, room, |Fit(entries, room)|);
  }

  /** Every table operation keeps the size limit. */
  lemma LimitKept(t: Table, h: HeaderField, maxSize: nat)
    ensures WithinLimit(Insert(t, h)) && WithinLimit(Resize(t, maxSize))
  {
    FitWithinRoom([h] + t.entries, t.maxSize);
    FitWithinRoom(t.entries, maxSize);
  }

  lemma {:induction false} TotalSizeOfInit(entries: seq<HeaderField>)
    requires entries != []
    ensures TotalSize(entries) == TotalSize(entries[..|entries| - 1]) + EntrySize(entries[|entries| - 1])
  {
    if |entries| > 1 {
      TotalSizeOfInit(entries[1..]);
      assert entries[1..][..|entries| - 2] == entries[..|entries| - 1][1..];
    }
  }

  /** Dropping the oldest entry of a table that is too large does not change what fits. */
  lemma {:induction false} EvictOldest(entries: seq<HeaderField>, room: nat)
    requires entries != [] && TotalSize(entries) > room
    ensures Fit(entries[..|entries| - 1], room) == Fit(entries, room)
  {
    if |entries| > 1 && EntrySize(entries[0]) <= room {
      EvictOldest(entries[1..], room - EntrySize(entries[0]));
      assert entries[1..][..|entries| - 2] == entries[..|entries| - 1][1..];
    }
  }

  lemma {:induction false} AllFit(entries: seq<HeaderField>, room: nat)
    requires TotalSize(entries) <= room
    ensures Fit(entries, room) == entries
  {
    if entries != [] {
      AllFit(entries[1..], room - EntrySize(entries[0]));
    }
  }
}
