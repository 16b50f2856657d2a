/** Where request bodies are kept, in memory or in a spool file, and how they are read back. */
module RequestBody {
  import opened Wrappers
  import opened Octets

  /** What a request knows of its body. */
  datatype StoredBody = StoredBody(body: Bytes, sizeBytes: nat, file: Option<Bytes>) {
    predicate Valid() {
      match file
      case Some(data) => sizeBytes == |data| && body == []
      case None => sizeBytes == 0 || sizeBytes == |body|
    }

    /** The octets that were sent, wherever they are. */
    function Octets(): Bytes {
      match file case Some(data) => data case None => body
    }

    /** `body_size`. */
    function Size(): (n: nat)
      ensures Valid() ==> n == |Octets()|
    {
      if sizeBytes == 0 && file.None? then |body| else sizeBytes
    }
  }

  class RequestBodyAccumulator {
    const memoryLimit: nat
    var size: nat
    var memory: Bytes
    var file: Option<Bytes>

    predicate Valid()
      reads this
    {
      && size == |Contents()|
      && (file.None? ==> |memory| <= memoryLimit)
      && (file.Some? ==> memory == [])
    }

    /** Everything appended so far. */
    function Contents(): Bytes
      reads this
    {
      match file case Some(data) => data case None => memory
    }

    constructor (memoryLimit: nat)
      ensures Valid() && Contents() == [] && file.None? && this.memoryLimit == memoryLimit
    {
      this.memoryLimit := memoryLimit;
      size, memory, file := 0, [], None;
    }

    /** The body stays in memory for as long as it fits, and is in the file from then on. */
    method Append(data: Bytes)
      requires Valid()
      modifies this
      ensures Valid() && Contents() == old(Contents()) + data
      ensures file.Some? <==> old(file).Some? || (|old(memory) + data| > memoryLimit && data != [])
    {
      if data == [] {
        assert Contents() + data == Contents();
        return;
      }
      if file.None? && |memory| + |data| <= memoryLimit {
        memory := memory + data;
        size := size + |data|;
        return;
      }
      EnsureSpoolFile();
      WriteSpool(data);
      size := size + |data|;
    }

    method EnsureSpoolFile()
      requires Valid()
      modifies this
      ensures Valid() && file.Some? && Contents() == old(Contents())
    {
      if file.Some? {
        return;
      }
      file := Some([]);
      if memory != [] {
        WriteSpool(memory);
        memory := [];
      }
    }

    /** Each call to `write` may take any part of what is left. */
    method WriteSpool(data: Bytes)
      requires file.Some?
      modifies this`file
      ensures file == Some(old(file).value + data)
    {
      var cursor := 0;
      assert file.value + [] == file.value;
      while cursor < |data|
        invariant cursor <= |data| && file.Some?
        invariant file.value == old(file).value + data[..cursor]
      {
        var written: nat :| 0 < written <= |data| - cursor;
        assert data[..cursor + written] == data[..cursor] + data[cursor..cursor + written];
        file := Some(file.value + data[cursor..cursor + written]);
        cursor := cursor + written;
      }
      assert data[..cursor] == data;
    }

    method Finish() returns (stored: StoredBody)
      requires Valid()
      modifies this
      ensures stored.Valid() && stored.Octets() == old(Contents())
      ensures stored.file.Some? <==> old(file).Some?
    {
      if file.Some? {
        stored := StoredBody([], size, file);
        return;
      }
      stored := StoredBody(memory, size, None);
      memory := [];
      size := 0;
    }
  }

  class RequestBodyReader {
    const stored: StoredBody
    var offset: nat
    var exhausted: bool

    predicate Valid()
      reads this
    {
      && stored.Valid()
      && offset <= |stored.Octets()|
      && (exhausted ==> offset == |stored.Octets()|)
    }

    constructor (stored: StoredBody)
      requires stored.Valid()
      ensures Valid() && offset == 0 && this.stored == stored
    {
      this.stored := stored;
      offset, exhausted := 0, false;
    }

    predicate Eof()
      reads this
    {
      exhausted || if stored.file.None? then offset >= |stored.body| else offset >= stored.Size()
    }

    /** The next octets, as many as are asked for and there are. */
    method ReadChunk(maxBytes: nat) returns (chunk: Bytes)
      requires Valid()
      modifies this
      ensures Valid() && offset == old(offset) + |chunk|
      ensures chunk == stored.Octets()[old(offset)..offset]
      ensures |chunk| == maxBytes || (|chunk| < maxBytes && offset == |stored.Octets()|)
    {
      if maxBytes == 0 || Eof() {
        return [];
      }
      var data := if stored.file.None? then stored.body else stored.file.value;
      var left := |data| - offset;
      var count := if maxBytes < left then maxBytes else left;
      chunk := data[offset..offset + count];
      offset := offset + count;
      exhausted := if stored.file.None? then offset >= |data| else chunk == [] || offset >= stored.Size();
    }
  }

  /** `body_text`: the body, or as much of its front as is asked for, read in chunks of at most
      8192 octets; zero asks for all of it. */
  method BodyText(stored: StoredBody, maxBytes: nat) returns (output: Bytes)
    requires stored.Valid()
    ensures output
        == if maxBytes == 0 || maxBytes > |stored.Octets()| then stored.Octets() else stored.Octets()[..maxBytes]
  {
    var wanted := if maxBytes == 0 || stored.Size() < maxBytes then stored.Size() else maxBytes;
    output := [];
    var reader := new RequestBodyReader(stored);
    while |output| < wanted && !reader.Eof()
      invariant reader.Valid() && reader.stored == stored && fresh(reader)
      invariant reader.offset == |output| <= wanted <= |stored.Octets()|
      invariant output == stored.Octets()[..|output|]
      decreases wanted - |output|
    {
      var chunk := reader.ReadChunk(if wanted - |output| < 8192 then wanted - |output| else 8192);
      if chunk == [] {
        break;
      }
      output := output + chunk;
    }
  }

  /** Spooling cannot be noticed: whatever pieces a body arrives in, and wherever it ends up,
      reading it back gives the pieces joined. */
  method StoreAndRead(pieces: seq<Bytes>, memoryLimit: nat) returns (text: Bytes, spooled: bool)
    ensures text == Concat(pieces)
    ensures spooled <==> |Concat(pieces)| > memoryLimit
  {
    var accumulator := new RequestBodyAccumulator(memoryLimit);
    assert pieces[0..] == pieces && accumulator.Contents() + Concat(pieces) == Concat(pieces);
    for i := 0 to |pieces|
      invariant accumulator.Valid() && fresh(accumulator) && accumulator.memoryLimit == memoryLimit
      invariant accumulator.Contents() + Concat(pieces[i..]) == Concat(pieces)
      invariant accumulator.file.Some? <==> |accumulator.Contents()| > memoryLimit
    {
      assert pieces[i..][1..] == pieces[i + 1..];
      assert accumulator.Contents() + (pieces[i] + Concat(pieces[i + 1..]))
          == accumulator.Contents() + pieces[i] + Concat(pieces[i + 1..]);
      accumulator.Append(pieces[i]);
    }
    assert accumulator.Contents() + [] == accumulator.Contents();
    var stored := accumulator.Finish();
    text := BodyText(stored, 0);
    spooled := stored.file.Some?;
  }
}
