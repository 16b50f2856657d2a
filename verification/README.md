# Rimau protocol cores

Rimau is a web server. This project models the parts of it that read and write protocols, and the
counters that its workers share, and proves what they are for:

- **HPACK and HTTP/2** (`Hpack*`, `Huffman*`, `Http2*`): the header compression codec down to the
  bits of the Huffman code, the frame codec, the server session as a state machine over frames, the
  translation of a finished stream into an HTTP/1.1 request, and the printing of responses.
- **HTTP/1.1 bodies and framing** (`Chunked*`, `Http1*`, `BodyStream`, `RequestBody`): the three
  chunked decoders and the encoder, bodies that arrive in pieces, the framer, its agreement with the
  parser, and connections that read one request after another.
- **Shared counters** (`Security`, `SecurityDecisions`, `CircuitBreaker`): each section under a lock
  is one step, and a run is any sequence of steps of any number of workers.
- **HTTP/3 frames** (`Http3Frame`, `Http3Forms`): variable-length integers, frames and SETTINGS.

Code of the server that changes variables or objects is a method or a class here. Each such method
is proved to compute a function of its inputs or of the old state, and the theorems are lemmas about
these functions: round trips, refinements, invariants of all runs, independence from how the network
cuts the octets, and what each operation accepts and refuses, in terms of octets, names and numbers
and without the functions that compute it. An octet string is a `seq` of numbers below 256; where
64-bit sums matter it has at most 2^63 - 1 of them, the most that a `std::string` can hold.

Four results differ from what one might expect of the server:

- The HTTP/2 session forgets a stream on `reset_stream` even when a second header block of that
  stream is pending, and the rest of the block then opens it again. The server never calls
  `reset_stream`; `Http2Histories.SafeDropExactly` says exactly when a call is harmless. That no
  stream ends twice holds in any case.
- How much of a chunked request has arrived with its header section decides which decoder reads its
  body, and the two differ: the incremental one is stricter about size and trailer lines, and the
  framer counts encoded octets against the limit where streaming counts the body.
  `Http1Arrival.TimingExactly` says for exactly which octets the timing of the reads makes no
  difference, and `Http1Examples.TimingExample` is a request of 54 octets for which it does.
- The framer's decoder adds a chunk size to its cursor in 64 bits. Where that sum wraps, which takes
  a size of nearly 2^64 (src/http/http1_session.cpp:285), it can find a message that is not there
  (`ChunkedDecoding.WrapReadsTwice`), throw, or never end. The theorems about framing and timing say
  exactly what holds then: `Http1Framing.FramingStable`, `Http1Framing.PipelineIsSplit`,
  `Http1Agreement.FrameIsItsMessage`, `Http1Arrival.ServedIsRead` and
  `Http1Arrival.ServedAlikeExactly` each end in a condition on such sums,
  `Http1Arrival.TimingExactly` needs none, and `Http1Examples.WrapExample` is a message for which
  they matter.
- The rate limiter lets through nearly twice its limit within some minutes
  (`Security.RateIsBounded`, `Security.BoundIsReached`), and keeps the limit in every minute only if
  that is zero or one. There is a bound at all exactly when the clock never reads its epoch
  (`Security.RateIsBoundedExactly`), and the steady clock of a running server does not. And a
  connection with an empty address would never be given back (`Security.ConnectionsAreAccounted`);
  the acceptor never makes one, because `render_client_ip` (src/core/server.cpp:645-669) gives at
  least a placeholder.

`dafny verify dfyconfig.toml` checks the whole project.

## Model

| member | source | states |
|---|---|---|
| `HuffmanTable.TableIsPrefixCode` | src/protocol/http2_hpack.cpp:120-186 | The 257 codes of the table are prefix-free and complete: every long enough string of bits starts with exactly one of them |
| `HuffmanTable.EosIsThirtyOnes` | src/protocol/http2_hpack.cpp:120-186 | The end-of-string code is thirty one-bits, so that padding of up to seven ones is a prefix of it |
| `HuffmanCanonical.CodesAreCanonical` | src/protocol/http2_hpack.cpp:120-186 | The table is the canonical code of the listed symbols per length: 257 symbols in ascending lists, each with its length's first code plus its place, the first code being twice the end of the codes one bit shorter |
| `PrefixCodes.FullTreeMeansPrefixCode` | src/protocol/http2_hpack.cpp:193-215 | A tree in which every inner node has two children and whose leaves carry the codes makes any code prefix-free and complete |
| `Huffman.BuildHuffmanTree` | src/protocol/http2_hpack.cpp:193-215 | The loops build a tree that represents the codes of any table, and fail exactly when two codes are equal |
| `Huffman.WalkTree` | src/protocol/http2_hpack.cpp:223-262 | Walking the tree bit by bit over the octets, with the padding rule at the end, is the bit-level specification of decoding |
| `Huffman.DecodeHuffman` | src/protocol/http2_hpack.cpp:217-262 | Tree building and walking together compute that specification for the table of the source |
| `HuffmanStrings.HuffmanExact` | src/protocol/http2_hpack.cpp:223-262 | Decoding gives `s` if and only if the bits are the codes of `s` and then at most seven one-bits (RFC 7541 section 5.2); the invalid-code error is never given |
| `HuffmanStrings.NeverInvalid` | src/protocol/http2_hpack.cpp:235-238 | No string of bits leads out of the tree, from any point of the walk |
| `HuffmanStrings.HuffmanRoundTrip` | src/protocol/http2_hpack.cpp:223-262 | Every string has an encoding, and it decodes back to the string |
| `HpackInteger.EncodeInteger` | src/protocol/http2_hpack.cpp:271-292 | For a 32-bit value the loop prints the prefix integer of section 5.1, and refuses prefix widths other than 1 to 8 |
| `HpackInteger.ReadInteger` | src/protocol/http2_hpack.cpp:294-326 | The loop with its shift and overflow tests computes the recursive specification of the decoder |
| `HpackInteger.IntegerRoundTrip` | src/protocol/http2_hpack.cpp:271-326 | Whatever follows, a value below 2^28 + 2^n - 1 comes back with its length, and every larger one is refused as an overflow |
| `HpackInteger.LongFormsAreRead` | src/protocol/http2_hpack.cpp:294-326 | Integers in more groups than they need are read as their number, unless a group from the fifth on is not zero; octets that all announce another one are refused |
| `Hpack.ReadString` | src/protocol/http2_hpack.cpp:339-355 | The string at an offset is the specified one, plain or Huffman-coded, with the offset behind it or the error |
| `HpackBlocks.StringRoundTrip` | src/protocol/http2_hpack.cpp:328-355 | A string in either form reads back, whatever follows, when its payload is below 2^28 + 127 octets |
| `HpackTable.FitIsLongestPrefix` | src/protocol/http2_hpack.cpp:443-452 | Eviction keeps the longest newest-first prefix of the entries that fits |
| `HpackTable.LimitKept` | src/protocol/http2_hpack.cpp:430-452 | Insertion and resizing leave the sum of the entry sizes within the limit |
| `Hpack.HpackDecoder.Reset` | src/protocol/http2_hpack.cpp:402-406 | The table is emptied and its size limit is kept |
| `Hpack.HpackDecoder.EvictDynamic` | src/protocol/http2_hpack.cpp:443-452 | Dropping oldest entries one by one leaves exactly that prefix, with the recorded size equal to the sum of the entry sizes |
| `Hpack.HpackDecoder.SetMaxTableSize` | src/protocol/http2_hpack.cpp:386-390 | The new table is the resized old one, and the size bookkeeping stays exact |
| `Hpack.HpackDecoder.AddDynamic` | src/protocol/http2_hpack.cpp:430-441 | The new table is the specified insertion; an entry above the limit empties the table |
| `Hpack.HpackDecoder.IndexedHeader` | src/protocol/http2_hpack.cpp:408-423 | Index 1 to 61 is the static table, then the dynamic table newest first; zero and anything beyond are errors |
| `HpackIndexing.StaticIndices` | src/protocol/http2_hpack.cpp:408-418 | Index zero is an error and the indices 1 to 61 are the entries of appendix A of RFC 7541, listed one by one, whatever the dynamic table holds |
| `HpackIndexing.InsertedIsNewest` | src/protocol/http2_hpack.cpp:408-441 | After an insertion index 62 is the new entry, if it fits, and every older one has moved up by exactly one, as long as there is room up to it |
| `HpackIndexing.ResizedKeeps` | src/protocol/http2_hpack.cpp:386-390 | A size update keeps the entries that there is room for, newest first, under the same indices |
| `HpackIndexing.IndexOverInsertions` | src/protocol/http2_hpack.cpp:408-452 | Over any list of insertions, index 61 + k is the k-th newest of all entries that have ever been there, if it and the newer ones fit together at 32 octets more than their text each, and an error otherwise |
| `HpackIndexing.LiteralsThenIndex` | src/protocol/http2_hpack.cpp:454-512 | A block that adds any short fields to the table and then refers to index 61 + k gives those fields and the k-th newest of all entries, or the error |
| `HpackIndexing.AddedIsIndex62` | src/protocol/http2_hpack.cpp:454-512 | In octets: a literal with incremental indexing and then 0xBE gives the field twice |
| `HpackIndexing.IndexedForm` | src/protocol/http2_hpack.cpp:461-467 | 0x80 plus an index, in front of any octets: that entry, and then what the octets come to |
| `HpackIndexing.LiteralForm` | src/protocol/http2_hpack.cpp:479-510 | 0x40 plus the index of a name, and a value: a field that is added to the table; the same with zero or 0x10: a field that is not |
| `HpackIndexing.SizeUpdateForm` | src/protocol/http2_hpack.cpp:469-477 | 0x20 plus a size: a size update, which is an error behind a field |
| `Hpack.HpackDecoder.DecodeHeaderBlock` | src/protocol/http2_hpack.cpp:454-512 | The loop over the octets gives the headers, or the error, and the table of the recursive specification |
| `HpackBlocks.DecoderRefinesInterpreter` | src/protocol/http2_hpack.cpp:454-512 | On the wire form of any sequence of representations (indexed, literal with, without and never indexed, size update) whose indices, sizes and string lengths are within what the prefix integers carry, the octet decoder gives what an interpreter of the representations gives, and leaves the same table |
| `HpackBlocks.BlocksRefineInterpreter` | src/protocol/http2_hpack.cpp:454-512 | The same for every sequence of such blocks, each starting from the table that the blocks before it left |
| `HpackBlocks.LimitKeptByBlock` | src/protocol/http2_hpack.cpp:454-512 | Whatever octets arrive, also malformed ones, the table stays within its size limit |
| `HpackTruncation.BlockCut` | src/protocol/http2_hpack.cpp:339-355 | A block that ends inside a representation is refused, wherever it ends and whatever came before |
| `Hpack.EncodeHeaderBlock` | src/protocol/http2_hpack.cpp:357-378 | The loop gives the wire form of the chosen representations, or the first refusal |
| `HpackEncoding.ChosenExactly` | src/protocol/http2_hpack.cpp:357-378 | The encoder takes the first entry of appendix A that is the field; else a literal without indexing, with the first entry that has the name, or with the name |
| `HpackEncoding.EncodedOctets` | src/protocol/http2_hpack.cpp:357-378 | The octets of a field with short texts, one by one; only a field without a name is refused |
| `Hpack.EncoderUndoneByDecoder` | src/protocol/http2_hpack.cpp:357-378 | Decoding an encoded header list gives the list back, from any dynamic table, and leaves that table unchanged |
| `Hpack.EncoderUndoneExactly` | src/protocol/http2_hpack.cpp:357-378 | The round trip holds if and only if no string that is spelled out reaches 2^28 + 127 octets |
| `Hpack.ShortStringsCarried` | src/protocol/http2_hpack.cpp:328-337 | Names and values below 2^28 + 127 octets always meet that condition |
| `Http2Frame.WriteFrame` | src/protocol/http2_frame.cpp:120-139 | Octet by octet: the nine-octet header and the payload for a frame with a 31-bit stream id that breaks no rule of its kind, and otherwise the first error |
| `Http2Frame.ReadFrame` | src/protocol/http2_frame.cpp:141-183 | The parser with its copying loop computes the specification: incomplete, the first broken rule, or the frame |
| `Http2Frame.FrameRoundTrip` | src/protocol/http2_frame.cpp:120-183 | Parsing undoes serialising for every valid frame and suffix, and every strict prefix is incomplete |
| `Http2Frame.ParseStable` | src/protocol/http2_frame.cpp:141-183 | A verdict other than incomplete stands when more input arrives |
| `Http2Octets.FrameExactly` | src/protocol/http2_frame.cpp:47-183 | A frame is found if and only if the octets start with its length, kind, flags, stream id, whose first bit does not count, and payload, within the size, and it follows the rules of its kind, stated in numbers |
| `Http2Octets.WaitsExactly` | src/protocol/http2_frame.cpp:141-160 | More is waited for if and only if the nine octets or the payload that they announce are not all there and the payload is not too long |
| `Http2Frame.WriteSettings` | src/protocol/http2_frame.cpp:185-196 | The loop prints the specified six octets per setting |
| `Http2Frame.ReadSettings` | src/protocol/http2_frame.cpp:198-215 | The loop reads the specified settings, and refuses exactly the lengths that are not a multiple of six |
| `Http2Frame.SettingsRoundTrip` | src/protocol/http2_frame.cpp:185-215 | SETTINGS lists of any length come back from the wire |
| `Http2Frame.SettingsReprint` | src/protocol/http2_frame.cpp:185-215 | And every payload of the right length is the wire form of what it parses to |
| `Http2Octets.SettingsExactly` | src/protocol/http2_frame.cpp:198-215 | Setting k is the octets from 6 k on, two for the identifier and four for the value |
| `Octets.ParseSize` | src/http/http1_session.cpp:67-110 | The running overflow test accepts exactly the digit strings, decimal or hexadecimal, whose value fits 64 bits, with that value |
| `RequestText.ReadRequest` | src/http/parser.cpp:234-291 | The line-by-line loop computes the recursive specification of the parser, errors included |
| `RequestText.HeaderLineReadBack` | src/http/parser.cpp:261-280 | A printed header line is read back as its name and its trimmed value |
| `ChunkedGrammar.SizeExactly` | src/http/http1_session.cpp:67-110 | A size is read from exactly the texts that spell it, in any case and behind any zeros, and only if it fits 64 bits |
| `Octets.TokenCharsExactly` | src/http/http1_session.cpp:49-64 | The characters of a header name are the visible ones but the delimiters of section 5.6.2 of RFC 9110 |
| `Octets.DigitsAreNumbers` | src/http/http1_session.cpp:86-110 | The sixteen hexadecimal digits and their values, in any case |
| `Http2Translation.MergeAll` | src/protocol/http2_session.cpp:686-728 | The loop over the header fields computes the merged header map, or refuses |
| `Http2Translation.PlanPrintable` | src/protocol/http2_session.cpp:686-750 | Whatever passes the checks can be printed: field names are lower-case tokens and no value has a line break |
| `Http2Translation.PrintedRequestReadBack` | src/protocol/http2_session.cpp:752-766 | For any order of the header map, parsing the printed text gives exactly the method, target, trimmed headers (host from `:authority`, content-length added) and body that the stream meant; it fails if and only if method and path do not make two words |
| `Http2Translation.RequestLinePreserved` | src/protocol/http2_session.cpp:752-766 | Method and target come back unchanged if and only if both are non-empty and free of white space |
| `Http2Merging.MergingMeans` | src/protocol/http2_session.cpp:686-728 | The merging loop accepts a field list if and only if every field follows the rules, said without the loop; and then it holds, for every name, the one value of a pseudo-header or all values of a header joined in order, cookies with a semicolon and others with a comma |
| `Http2Merging.RequestMeans` | src/protocol/http2_session.cpp:686-750 | A stream becomes a request if and only if its fields follow the rules, method, path and scheme are there, a declared length is that of the body, and a host agrees with the authority; method and path are then the values of their fields |
| `Http2Merging.RequestHeadersMean` | src/protocol/http2_session.cpp:718-750 | Each header of the request is the joined values of its name, except that the host is the authority if there is one |
| `Http2Building.BuiltExactly` | src/protocol/http2_session.cpp:673-769 | A field list and a body make a request if and only if they follow the rules, said in names and octets without the loop, the plan or the text in between; and then method, target, version, body and the header of every name are the ones described |
| `Http2Building.PlainRequestIsBuilt` | src/protocol/http2_session.cpp:673-769 | A method and a path of one word each and a scheme make a request, for every body, whose only header is the length of a body that is there |
| `Http2Translation.BuildRequest` | src/protocol/http2_session.cpp:673-769 | Checking, printing in any map order and reading back always gives the same specified request or refusal |
| `Http2Server.ServerSession.Reset` | src/protocol/http2_session.cpp:341-349 | Everything is reset but the size limit of the decoder's table |
| `Http2Server.ServerSession.AcceptPreface` | src/protocol/http2_session.cpp:356-417 | The method gives the specified verdict and buffer, and activates the session exactly when it accepts |
| `Http2Preface.PrefaceStable` | src/protocol/http2_session.cpp:356-417 | A verdict that is reached early is the one that is reached late, and the octets behind the opening are kept |
| `Http2Preface.AcceptedExactly` | src/protocol/http2_session.cpp:381-416 | An opening is accepted if and only if it is the preface and a valid SETTINGS frame of stream zero, with HTTP/2 enabled and allowed; the answer reads back as SETTINGS and its acknowledgement |
| `Http2Octets.PrefaceOctets` | src/protocol/http2_session.cpp:356-364 | The preface, octet by octet |
| `Http2Octets.AfterPreface` | src/protocol/http2_session.cpp:376-417 | Behind the preface: too much input and a first frame other than SETTINGS of stream zero are refused with GOAWAY and error 1, HTTP/2 being off with 13 and the rate limit with 11, octet by octet; else the two SETTINGS frames, and the octets behind the first frame are kept |
| `Http2Octets.BeforePreface` | src/protocol/http2_session.cpp:362-374 | The front of the preface waits; anything else is no HTTP/2, and stays in the buffer |
| `Http2Server.ServerSession.HandleHeadersFrame` | src/protocol/http2_session.cpp:520-552 | The method makes the specified transition of the whole session state and gives the specified result |
| `Http2Server.ServerSession.HandleContinuationFrame` | src/protocol/http2_session.cpp:554-572 | The same for CONTINUATION frames |
| `Http2Server.ServerSession.HandleHeaderBlock` | src/protocol/http2_session.cpp:574-604 | The same for a complete header block; an HPACK failure resets the stream only |
| `Http2Server.ServerSession.HandleDataFrame` | src/protocol/http2_session.cpp:606-652 | The same for DATA frames, with both windows and the WINDOW_UPDATE frames |
| `Http2Server.ServerSession.HandleOneFrame` | src/protocol/http2_session.cpp:451-518 | The same for every kind of frame |
| `Http2Server.ServerSession.Process` | src/protocol/http2_session.cpp:419-444 | The loop over the buffer ends, and gives the specified session, rest of the buffer and result |
| `Http2Server.ServerSession.ResetStream` | src/protocol/http2_session.cpp:446-449 | The stream is removed and nothing else changes |
| `Http2Server.ServerSession.Complete` | src/protocol/http2_session.cpp:771-792 | A finished stream leaves the map and gives its request, or a 400 response |
| `Http2Runs.FrameKeeps` | src/protocol/http2_session.cpp:451-652 | Every frame that the parser accepts keeps the invariant (stored streams are open with headers received, key = odd id at most the last client id, all windows 65535), opens at most one stream, above all earlier ids, and ends at most one, which is then gone |
| `Http2Runs.DataNeverBlocked` | src/protocol/http2_session.cpp:606-634 | Under the invariant no DATA frame of a stored stream can meet the half-closed or the flow-control branch |
| `Http2Payloads.PaddingInvisible` | src/protocol/http2_session.cpp:206-259 | For all data and all padding that fit a frame, in every session: a DATA or HEADERS frame with PADDED, a pad length and the padding does exactly what the frame without them does |
| `Http2Payloads.PriorityInvisible` | src/protocol/http2_session.cpp:206-234 | Five octets of priority in a HEADERS frame make no difference |
| `Http2Padding.DataPaddingExactly` | src/protocol/http2_session.cpp:236-259 | DATA of an open stream resets it with PROTOCOL_ERROR if and only if PADDED is set and the payload is no pad length, data and as much padding |
| `Http2Padding.HeadersPaddingExactly` | src/protocol/http2_session.cpp:206-234 | HEADERS of a new stream reset it with PROTOCOL_ERROR if and only if the padding is not right or the five octets of a priority are not there |
| `Http2Refusals.DataRefused` | src/protocol/http2_session.cpp:606-634 | DATA for no open stream reads back as RST_STREAM with STREAM_CLOSED, with wrong padding as PROTOCOL_ERROR; the stream is gone and all else stays |
| `Http2Refusals.DataLimited` | src/protocol/http2_session.cpp:606-634 | DATA above a window reads back as GOAWAY with FLOW_CONTROL_ERROR, above the limit as RST_STREAM with ENHANCE_YOUR_CALM |
| `Http2Refusals.HeadersRefused` | src/protocol/http2_session.cpp:520-545 | HEADERS with an even stream id fail the connection; of a stream that is not stored and not new they are answered with STREAM_CLOSED |
| `Http2Refusals.HeadersTaken` | src/protocol/http2_session.cpp:520-552 | Any other HEADERS with a right payload: a block above the limit resets the stream, an unfinished one is pending, a finished one is decoded |
| `Http2Refusals.ContinuationTaken` | src/protocol/http2_session.cpp:451-572 | CONTINUATION goes on with the pending block of its stream, up to the limit; any other CONTINUATION, and any other frame while a block is pending, fails the connection |
| `Http2Refusals.BlockRefused` | src/protocol/http2_session.cpp:574-597 | A block that cannot be decoded resets its stream with COMPRESSION_ERROR, a second one of a stream with PROTOCOL_ERROR; the table is the one that the block has left |
| `Http2Refusals.OtherFrames` | src/protocol/http2_session.cpp:451-518 | Between header blocks SETTINGS and PING are answered unless they are acknowledgements, GOAWAY closes, RST_STREAM drops its stream, PUSH_PROMISE fails the connection, and any other kind changes and shows nothing |
| `Http2Refusals.InputRefused` | src/protocol/http2_session.cpp:419-444 | A buffer above the limit fails the connection with ENHANCE_YOUR_CALM, octets that are no frame with PROTOCOL_ERROR, and nothing of them is kept |
| `Http2Refusals.NothingWhenDown` | src/protocol/http2_session.cpp:419-425 | A connection that is down looks at nothing |
| `Http2Completion.HeadersDeliver` | src/protocol/http2_session.cpp:574-604 | A HEADERS frame of a new stream whose whole block decodes: with END_STREAM it is delivered at once, as the request that its fields make or, if and only if they make none, the 400 response, with no output; without, the stream is stored with its fields and nothing is shown |
| `Http2Completion.ContinuationDelivers` | src/protocol/http2_session.cpp:554-604 | The same for the CONTINUATION frame that ends a block |
| `Http2Completion.DataDelivers` | src/protocol/http2_session.cpp:606-652 | DATA of an open stream within all limits is put to its body; with END_STREAM the stream is delivered with its fields and that body, and without it stays |
| `Http2Completion.EndsExactly` | src/protocol/http2_session.cpp:451-652 | A frame ends a stream if and only if the last octet of its stream arrives with it: the whole block of a new stream that says so, or DATA of a stored one with END_STREAM |
| `Http2Histories.RunKeepsInvariant` | src/protocol/http2_session.cpp:419-652 | The invariant holds after every step of every run of frames and of stream drops that are safe |
| `Http2Histories.OpenedIdsIncrease` | src/protocol/http2_session.cpp:520-604 | Over any run whose drops are safe the opened stream ids are odd and strictly increasing (RFC 9113 section 5.1.1) |
| `Http2Histories.OneStepOpensOne` | src/protocol/http2_session.cpp:520-604 | No step opens two streams |
| `Http2Histories.StreamsEndOnce` | src/protocol/http2_session.cpp:574-652 | Over any run, whatever streams are dropped and whatever resets, repeated HEADERS and late DATA arrive, no stream ends twice, be it with a request or with an error response |
| `Http2Histories.EndedWasOpened` | src/protocol/http2_session.cpp:574-652 | Only streams that were opened end |
| `Http2Histories.SafeDropExactly` | src/protocol/http2_session.cpp:446-449 | `reset_stream` keeps the invariant if and only if no header block of that same stored stream is pending |
| `Http2Histories.UnsafeDropReopens` | src/protocol/http2_session.cpp:446-449 | After an unsafe drop the rest of the pending block opens the stream a second time |
| `Http2Histories.UnsafeDropIsReachable` | src/protocol/http2_session.cpp:446-449 | Two HEADERS frames lead from a fresh session to such a state |
| `Http2Windows.StepConserves` | src/protocol/http2_session.cpp:606-652 | In every step the window increments sent equal the DATA octets appended, per connection and per stream |
| `Http2Windows.CreditsConserved` | src/protocol/http2_session.cpp:606-652 | Over any run the WINDOW_UPDATE increments, for the connection and for each stream, sum up to the octets appended to bodies |
| `Http2Windows.RequestBodyIsGathered` | src/protocol/http2_session.cpp:606-652 | The request that a stream ends with carries exactly the accepted octets of that stream, in order |
| `Http2Requests.RequestIsBuilt` | src/protocol/http2_session.cpp:574-792 | Over any run a completed request is the one that its fields and its DATA make: `build_request` of the header list that was decoded when the stream was opened and of exactly the accepted octets, in order |
| `Http2Completion.StreamsAreDelivered` | src/protocol/http2_session.cpp:574-792 | And conversely, over any run: when the last octet of a new stream arrives it is delivered, as the request that the header list decoded at its opening and exactly its accepted octets make, or as the 400 response if they make none |
| `Http2Answers.AnswersReadBack` | src/protocol/http2_session.cpp:451-671 | Whatever frame arrives, the answer reads back as frames and is one of: nothing, a SETTINGS acknowledgement, a PING acknowledgement with the same octets, one GOAWAY when the connection has failed, the RST_STREAM of the stream, which is then gone, or the credit for accepted DATA; between header blocks SETTINGS and PING without ACK are always acknowledged, and a PING changes nothing |
| `Http2Answers.LastTableSizeCounts` | src/protocol/http2_session.cpp:459-466 | The last HEADER_TABLE_SIZE of a SETTINGS frame is the limit of the decoder table from then on |
| `Http2Octets.SmallestSizeFits` | src/protocol/http2_session.cpp:459-466 | And of the entries those stay that fit in the smallest size of the frame |
| `Http2Answers.FramesAreIsolated` | src/protocol/http2_session.cpp:451-652 | A frame changes no stream but its own, unless the connection fails |
| `Http2Fragments.FragmentationInvisible` | src/protocol/http2_session.cpp:520-604 | For every split of a header block into HEADERS and CONTINUATION frames within the size limit, final result and state are those of decoding the whole block, and those of any one HEADERS frame with the whole block (RFC 9113 section 6.10) |
| `Http2Fragments.InterruptionFailsForGood` | src/protocol/http2_session.cpp:451-456 | Any other frame in between fails the connection, and nothing later is looked at |
| `Http2Fragments.ConsumeIsARun` | src/protocol/http2_session.cpp:419-444 | Processing any octets is a run over the first of the frames in them; then the connection is down, or only the beginning of a frame is left, or the verdict on what follows is the error that fails the connection |
| `Http2Fragments.InputEndsStreamsOnce` | src/protocol/http2_session.cpp:419-652 | So for octets: whatever arrives, in whatever reads, no stream ends twice among the results |
| `Http2Reads.DrainInput` | src/core/server.cpp:3066-3078 | The draining loop ends, and gives the specified session, buffer and non-empty results |
| `Http2Reads.DrainIsConsume` | src/core/server.cpp:3066-3078 | Within the buffer limit, draining is one pass over the frames |
| `Http2Reads.ReadsDoNotMatter` | src/protocol/http2_session.cpp:419-444 | For every octet stream and every cutting into reads, draining after each read gives the results and the final session of one read, as long as the buffer stays within the limit |
| `Http2Reads.CuttingsAgree` | src/protocol/http2_session.cpp:419-444 | Two cuttings of the same octets give the same results and the same session |
| `Http2Response.DefaultsMean` | src/protocol/http2_session.cpp:262-285 | Name by name: a header that is there wins over a default one, content-length is the length of the body where there may be one, and server is the configured name or absent |
| `Http2Response.SerializeResponse` | src/protocol/http2_session.cpp:306-339 | For every order of the header map, the loops print the HEADERS frame with `:status` and the filtered fields, and the DATA frames; or the refusal of the block or frame |
| `Http2Response.ResponseReadBack` | src/protocol/http2_session.cpp:306-339 | The frames read back: one HEADERS frame whose block decodes, with any dynamic table, to the header list; then DATA frames of the stream, of at most 16384 octets, whose payloads make up the body; END_STREAM on exactly the last frame |
| `Http2Response.PrintedExactly` | src/protocol/http2_session.cpp:306-339 | Printing succeeds if and only if the stream id is usable and the header block fits one frame |
| `Http2Response.SentExactly` | src/protocol/http2_session.cpp:314-322 | A field is sent if and only if it is the lower-cased, sanitised form of an entry with a token name that is not connection-specific |
| `Http2ResponseRules.ResponseIsRead` | src/protocol/http2_session.cpp:262-339 | What the client reads of a printed response, with its defaults and in any order of the header map: a field with the status, exactly the fields of the entries with a token name that is none of eight names, and exactly the body if the status is at least 200 and not 204 or 304 and it was asked for |
| `Http2ResponseRules.SentNamesExactly` | src/protocol/http2_session.cpp:180-190 | The eight names, in any case, and what is no token, are not sent; all else is |
| `Http2ResponseRules.SanitizedByOctet` | src/protocol/http2_session.cpp:192-204 | Each octet of a value by itself: CR and LF become a space, TAB and what is no control below 0x20 stay, the rest is dropped |
| `Http2Response.SanitizedIsClean` | src/protocol/http2_session.cpp:192-204 | A sent value has no control character below 0x20 but TAB; 0x7f is let through |
| `Http2Response.CleanIsKept` | src/protocol/http2_session.cpp:192-204 | A value is sent unchanged if and only if it has none to begin with |
| `ChunkedDecoding.DecodeChunkedBody` | src/http/http1_session.cpp:245-297 | The loops with their cursor, whose sums wrap at 2^64, give the specified verdict: incomplete, malformed, a body with the number of octets consumed, an exception of `substr`, or no end |
| `ChunkedDecoding.NeverIsForGood` | src/http/http1_session.cpp:250-296 | A loop that has not ended after one turn more than there are octets never ends, so that the bound which the model puts on its turns loses nothing |
| `ChunkedDecoding.WrappedHop` | src/http/http1_session.cpp:285-295 | Where the sum wraps, the test lets it through, except for the largest size with nothing behind its line; all the rest of the buffer is taken for the chunk; and the cursor goes back, or `substr` throws |
| `ChunkedDecoding.DecodesExactly` | src/http/http1_session.cpp:245-297 | When the decoder waits, more octets are needed; any other verdict is what the octets mean if and only if no sum wraps on the way |
| `ChunkedGrammar.SizeOnExactly` | src/http/http1_session.cpp:250-275 | A size is read from exactly the lines that are white space, a hexadecimal number, white space and perhaps an extension behind a semicolon |
| `ChunkedGrammar.CompleteExactly` | src/http/http1_session.cpp:245-297 | Octets are a complete body with these contents and this rest if and only if the grammar of section 7.1 of RFC 9112 writes them: chunks with size lines and extensions, the last chunk, and trailer lines |
| `ChunkedGrammar.MalformedExactly` | src/http/http1_session.cpp:245-297 | And malformed if and only if, behind some chunks, there is a line that is no size line, or a chunk without its CR LF |
| `ChunkedGrammar.DecodingByGrammar` | src/http/http1_session.cpp:245-297 | The decoder takes every body that the grammar writes for what it is and refuses broken octets; where no sum wraps it takes and refuses nothing else |
| `ChunkedDecoding.DecodingStable` | src/http/http1_session.cpp:245-297 | A decoded body stays decoded with the same octets consumed when more input arrives; it is the same body if and only if no sum wraps, and a longer one otherwise |
| `ChunkedDecoding.WrapReadsTwice` | src/http/http1_session.cpp:285-295 | An unfinished chunk of 2^64 - 2 octets, with the encoding of any chunks and any octets behind its line: the decoder gives a body of all of that and the chunks once more |
| `ChunkedDecoding.WrapCanWait` | src/http/http1_session.cpp:285-295 | With nothing behind its line it waits, as it should |
| `ChunkedDecoding.WrapThrows` | src/http/http1_session.cpp:285-291 | A size for which `substr` throws, whatever follows |
| `ChunkedDecoding.WrapHangs` | src/http/http1_session.cpp:250-296 | A size behind a chunk for which the loop never ends, whatever follows |
| `ChunkedBody.EncodeChunkedBody` | src/http/response.cpp:600-613 | The loop, which skips empty chunks, prints the specified text |
| `ChunkedBody.EncodeUndone` | src/http/response.cpp:600-613 | The encoding of every list of chunks means the chunks joined, whatever follows it, also to a reader that wants clean lines |
| `ChunkedGrammar.EncodedIsWritten` | src/http/response.cpp:600-613 | The encoder writes each chunk that is not empty as one chunk behind its length, without zeros in front, then the last chunk and no trailers |
| `ChunkedDecoding.DecodingUndoesEncoding` | src/http/response.cpp:600-613 | Both decoders undo encoding for every list of chunks and every suffix, and the framer's consumes exactly the encoding |
| `ChunkedDecoding.DecodeUpstreamBody` | src/http/virtual_host.cpp:602-640 | The loop of the decoder for upstream responses computes its specification, with the same sums |
| `ChunkedDecoding.UpstreamAgrees` | src/http/virtual_host.cpp:602-640 | On all octets: it finds the body that the framer's decoder finds, none where that one refuses, and throws or hangs where that one does; a body found before the trailers have arrived is the one that the framer will find if and only if no sum wraps |
| `ChunkedGrammar.UpstreamByGrammar` | src/http/virtual_host.cpp:602-640 | It gives the octets of the chunks as soon as the last chunk is there, and where no sum wraps only then |
| `ChunkedStream.StreamingRefinesBatch` | src/core/server.cpp:2891-2975 | However the input is cut, if the incremental decoder finishes then `decode_chunked_body` is complete on the same octets, as many as a string holds, with the same body and the same number consumed |
| `ChunkedStream.StrictInputFinishes` | src/core/server.cpp:2891-2975 | Every cutting of an input whose size and trailer lines are clean (no bare LF, at most 8191 octets) and whose body is within the limit is finished with that body and rest |
| `ChunkedStream.FinishesExactly` | src/core/server.cpp:2891-2975 | The condition is exact: all cuttings finish if and only if the lines are clean and the body is within the limit, and octet by octet is the hardest cutting |
| `ChunkedStream.OneReadIsEasiest` | src/core/server.cpp:2891-2975 | What any cutting comes to without being refused, one read of all the octets comes to as well |
| `ChunkedStream.SomeCuttingFinishes` | src/core/server.cpp:2891-2975 | Some cutting, into reads of any length, is finished if and only if the chunked body is complete and within the limit, its size and trailer lines have no bare LF and its trailer lines are at most 8192 octets |
| `ChunkedStream.StreamingUndoesEncoding` | src/http/response.cpp:600-613 | Streaming undoes `encode_chunked_body` for every list of chunks, every suffix and every cutting |
| `ChunkedLimits.LimitExactly` | src/core/server.cpp:2891-2975 | For any input in any reads: without a limit the only refusal is 400; with one the outcome is the same or 413, and for input that is not refused it is 413 exactly if more than the limit is put together |
| `ChunkedLimits.CleanBodyStreams` | src/core/server.cpp:2891-2975 | A body that the grammar writes with clean lines is finished with its octets, or refused with 413 if they are more than the limit, however it is cut |
| `ChunkedStream.BareLineFeedDiffers` | src/core/server.cpp:2906-2910 | Without the condition the decoders differ: a size line with a bare LF is trimmed and taken by one and refused by the other |
| `BodyStream.BodyReading.ProcessChunked` | src/core/server.cpp:2891-2975 | The loop over the connection's buffer makes the specified turns: waiting, finished with the body and the rest, or refused with 400 or 413 |
| `BodyStream.BodyReading.ProcessLength` | src/core/server.cpp:2876-2889 | The loop for a Content-Length body takes exactly what is missing and leaves the rest in the buffer |
| `BodyStream.LengthFeedSplits` | src/core/server.cpp:2876-2889 | However the input is cut, such a body is its first octets, as many as announced, and the rest is kept |
| `BodyStream.ReadChunkedBody` | src/core/server.cpp:2838-2975 | A body read after read, from the header section on, is the specified feeding of the pieces |
| `BodyStream.ReadPlainBody` | src/core/server.cpp:2838-2889 | The same for a body with a Content-Length |
| `RequestBody.RequestBodyAccumulator.Append` | src/core/server.cpp:2107-2122 | The contents grow by the data, and go to the file exactly when they first exceed the memory limit |
| `RequestBody.RequestBodyAccumulator.Finish` | src/core/server.cpp:2129-2141 | The request gets exactly the contents, in memory or as a file |
| `RequestBody.RequestBodyReader.ReadChunk` | src/http/parser.cpp:123-145 | The next octets of the body, as many as asked for and there are, from memory or file alike |
| `RequestBody.BodyText` | src/http/parser.cpp:211-227 | The loop reads the whole body, or exactly as much of its front as is asked for |
| `RequestBody.StoreAndRead` | src/core/server.cpp:2097-2191 | Spooling cannot be noticed: whatever pieces arrive, reading back gives the pieces joined; it is spooled if and only if it exceeds the limit |
| `Http1Framing.AnalyzeHeaderFrame` | src/http/http1_session.cpp:132-231 | The loops compute the specification of the header checks: no bare CR or LF, no other controls, token names, one valid Content-Length or one chunked coding but not both |
| `Http1Acceptance.AcceptsExactly` | src/http/http1_session.cpp:132-231 | Over the list of its lines: a header section is accepted, with a verdict on the length of the body, if and only if no line has a control but TAB, each line behind the first is a token, a colon and anything, and there is no framing header (no body), or one Content-Length whose value fits (that length), or one Transfer-Encoding that is the chunked coding with nothing but commas and white space around it (chunked), and not both |
| `Http1Acceptance.LinesOfBuffer` | src/http/http1_session.cpp:320-330 | Every buffer with an empty line starts with such a list of lines, so that nothing is left unsaid |
| `Http1Framing.NextHttp1RequestFrame` | src/http/http1_session.cpp:320-396 | The method computes the specified frame, with every refusal, its status and what is to be dropped, and the exception or the endless loop of the chunked decoder |
| `Http1Acceptance.FrameExactly` | src/http/http1_session.cpp:320-396 | The frame of a header section and what is behind it: 400 if it breaks the rules or cannot be parsed, 431 above the limit, 413 if the announced body goes above it, waiting or complete by how many of the announced octets are there, and for a chunked body what its chunks decode to |
| `Http1Acceptance.ParseExactly` | src/http/parser.cpp:234-291 | The parser on a section that follows the rules, whatever is behind it: three words of which the last is a version, every name with the value of its last line, the rest as the body |
| `Http1Acceptance.PlainRequestIsFramed` | src/http/http1_session.cpp:374-395 | Any request line of two words and the version with any token names and clean values, none a framing header, is framed as complete without a body within the limit, whatever is behind it, with the headers that were printed last |
| `Http1Framing.FramingStable` | src/http/http1_session.cpp:320-396 | A buffer that frames as complete still does when any octets are appended, with the same octets consumed; it is the same frame if and only if no sum wraps, and a longer request otherwise |
| `Http1Framing.PipelineIsSplit` | src/http/http1_session.cpp:320-396 | Framing and erasing repeatedly splits a concatenation of complete messages into exactly those messages, in order, whatever follows, if and only if no sum wraps in a message that has something behind it |
| `Http1Agreement.FrameIsItsMessage` | src/http/http1_session.cpp:320-396 | The octets that a frame consumes are one complete message by themselves and give the same frame if and only if no sum wraps or nothing is behind them |
| `Http1Agreement.HeadThenBody` | src/http/parser.cpp:234-291 | A header section that the framer lets through is parsed the same with any body behind it, and that body is kept exactly |
| `Http1Agreement.FramerAndParserAgree` | src/http/http1_session.cpp:364-395 | For every complete frame the parser accepts the raw request, its body is exactly the decoded chunk data or the Content-Length octets, and its headers announce the same framing that the framer used; the decoded data is what the chunks mean if and only if no sum wraps |
| `Http1Timing.LateChunkedBody` | src/core/server.cpp:2838-2975 | A body that streaming finishes is the one that the framer would have decoded with all octets there, and the next request starts at the same octet; the framer refuses it if and only if the encoded message exceeds the limit |
| `Http1Timing.CleanMessageArrives` | src/core/server.cpp:2838-2975 | A chunked message that frames as complete and has clean lines is read with the same result however it is cut |
| `Http1Timing.LatePlainBody` | src/core/server.cpp:2876-2889 | The same for Content-Length bodies, for every cutting, also while octets are missing |
| `Http1Arrival.ServeRequest` | src/core/server.cpp:2753-2836 | Framing the buffer after each read, and streaming the body once the header section is there, gives the specified verdict: still waiting, a request and the octets behind it, a refusal, or a framer that does not return |
| `Http1Delivery.PlainVerdict` | src/core/server.cpp:2753-2889 | In whatever reads a request arrives whose header section is within the limit: 400 if the section breaks the rules or cannot be parsed, 413 if the announced length is too much; else it is served as soon as its octets are there, with exactly them as its body, and the rest is left |
| `Http1Delivery.PrintedRequestIsServed` | src/core/server.cpp:2753-2836 | So every printed request without framing headers is served in whatever reads it arrives |
| `Http1Delivery.EndlessHead` | src/http/http1_session.cpp:322-330 | Octets without an empty line wait, and are refused with 431 as soon as they are more than the limit |
| `Http1Delivery.ChunkedVerdict` | src/core/server.cpp:2838-2975 | Behind a header section that is one read, a chunked body with clean lines is served however it is cut, or refused with 413 if it is more than the limit leaves for it |
| `Http1Arrival.ServedIsRead` | src/core/server.cpp:2753-2975 | Whatever is served, at whatever timing, is the request that the octets mean if and only if no sum wraps |
| `Http1Arrival.ServedAlikeExactly` | src/core/server.cpp:2753-2975 | Two cuttings that are both served get the same request, and the next request starts at the same octet, for exactly those octets that do not, with a sum that wraps, frame as complete already without their last one |
| `Http1Arrival.AlwaysServedExactly` | src/core/server.cpp:2753-2975 | Octets are served at every timing if and only if they frame as a complete message and, when that is chunked, its size and trailer lines are clean |
| `Http1Arrival.SometimesServedExactly` | src/core/server.cpp:2753-2975 | Octets are served at some timing, in reads of any length, if and only if they frame as complete or their chunked body streams to its end in one read |
| `Http1Arrival.TimingExactly` | src/core/server.cpp:2753-2975 | Whether and how octets are served does not depend on the timing if and only if they are a complete message with clean lines, or neither frame nor stream at all; octets with a sum that wraps are no exception |
| `Http1Arrival.CompleteMessageTiming` | src/core/server.cpp:2753-2975 | For a complete chunked message that is: if and only if its lines are clean |
| `Http1Arrival.OversizedMessageTiming` | src/http/http1_session.cpp:345-372 | For a chunked message whose encoding exceeds the limit, which is refused when it is there at once: if and only if a bare LF, a long trailer line or the length of its body keeps it from being streamed |
| `Http1Arrival.OneOctetTooMany` | src/http/http1_session.cpp:345-372 | Such a message: a header section that leaves five octets, and a body of one; it is served at some timing and refused at another |
| `Http1Arrival.WrapDependsOnTiming` | src/http/http1_session.cpp:285-295 | Any chunked header section with a size of 2^64 - 2 and the encoding of any chunks: it is served at once, with a body that is wrong and that takes in what is behind it in the same read, and not served when the header section comes first |
| `Http1Conversation.MessagesAreServed` | src/core/server.cpp:4258-4268 | For every list of clean messages, whatever follows, and every cutting into reads, the connection that is kept alive serves exactly these messages, in order, and goes on with what follows, whichever decoder reads each body |
| `Http1Conversation.ConversationsAgree` | src/core/server.cpp:4258-4268 | Whatever octets arrive: of the requests that two cuttings of them get served, without a sum that wraps, one list is the front of the other |
| `Http1Conversation.LeftIsRest` | src/core/server.cpp:4258-4268 | What a served request leaves, in the buffer and in the reads to come, is exactly what is behind it, and less than there was |
| `Http1Examples.PlainExample` | src/http/http1_session.cpp:374-395 | A header section with a Content-Length of one is accepted and waits, and with one octet more the request is complete |
| `Http1Examples.ChunkedExample` | src/http/http1_session.cpp:345-372 | A chunked header section is accepted and waits, and with the encoding of any chunks within the limit the request is complete |
| `Http1Examples.TimingExample` | src/core/server.cpp:2753-2975 | With a limit of 48 octets a chunked request of 54 is served when its header section comes first, and refused when all comes at once |
| `Http1Examples.WrapExample` | src/http/http1_session.cpp:285-295 | With a limit that holds it, a message whose request, and whether it is one, depends on the timing because a sum wraps |
| `Http1Examples.TwoRequests` | src/core/server.cpp:4258-4268 | Two chunked requests with any chunks, in whatever reads they arrive: the two are served, with the chunks joined as their bodies |
| `Security.SecurityState.TryOpenConnection` | src/core/server.cpp:1997-2020 | The locked section makes the specified step of map and total, with the specified decision |
| `Security.SecurityState.CloseConnection` | src/core/server.cpp:2022-2040 | The same for closing |
| `Security.SecurityState.AllowRequest` | src/core/server.cpp:2042-2062 | The same for the request bucket of an address; other buckets do not change |
| `Security.ConnectionsAreAccounted` | src/core/server.cpp:1997-2040 | After any interleaving of openings and matching closes each count is the number of live connections of its address, and the total is the number of all of them, if and only if no connection with an empty address was closed |
| `Security.LimitsHold` | src/core/server.cpp:1997-2040 | At all times the total and every count are within their limits, also when the limits change between openings |
| `SecurityDecisions.LiveConnectionsDecide` | src/core/server.cpp:1997-2020 | Over any run without nameless closes, in terms of the live connections: an opening is allowed if and only if its address is admitted and both numbers are below their limits; blocked if and only if on the block list; not on the allow list, at the global limit and at the limit of the address each if and only if so |
| `SecurityDecisions.OpeningsAreDecided` | src/core/server.cpp:1997-2020 | The same over any run of matching closes, where each nameless close counts as a connection that stays; a refusal changes no count, and an opening that is allowed exactly its own and the total |
| `SecurityDecisions.CountersImplementRule` | src/core/server.cpp:1997-2040 | Total and counts are those of the connections that the rule alone, without counters, has live after the events |
| `Security.RateIsBounded` | src/core/server.cpp:2042-2062 | With a fixed limit L and a clock that does not go back, at most 2L - 1 requests of an address are let through in any minute, half-open, whatever the other addresses do |
| `Security.WindowIsBounded` | src/core/server.cpp:2042-2062 | In every run from the start, at most L in the minute from a request that starts a window |
| `SecurityDecisions.RequestsAreDecided` | src/core/server.cpp:2042-2062 | Behind any requests, whatever the clock does, a request is let through if and only if fewer than L requests of its address have come since its window started |
| `SecurityDecisions.NegativeLimitRefusesNone` | src/core/server.cpp:2055-2057 | A negative limit becomes a number near 2^64 and refuses nothing in practice |
| `Security.BoundIsReached` | src/core/server.cpp:2042-2062 | 2L - 1 is reached, for every L above zero |
| `Security.LimitKeptExactly` | src/core/server.cpp:2042-2062 | L is a bound for every minute of every run if and only if L is zero or one |
| `Security.UnboundedAtEpoch` | src/core/server.cpp:2049-2052 | At clock reading zero, which marks an unused bucket, any number of requests is let through |
| `Security.RateIsBoundedExactly` | src/core/server.cpp:2042-2062 | For L above zero: runs whose clock readings start at some point have a bound for every minute if and only if that point is past the epoch, and 2L - 1 is one then |
| `CircuitBreaker.Breakers.Available` | src/http/virtual_host.cpp:1269-1292 | The locked section gives the specified answer, and removes an entry whose time is over |
| `CircuitBreaker.Breakers.RecordSuccess` | src/http/virtual_host.cpp:1294-1302 | The locked section forgets the upstream, and nothing else changes |
| `CircuitBreaker.Breakers.RecordFailure` | src/http/virtual_host.cpp:1304-1317 | The locked section counts the failure and opens the breaker from the threshold on |
| `CircuitBreaker.BreakerRefinesHistory` | src/http/virtual_host.cpp:1269-1317 | After any events on any upstreams, one is refused if and only if its failures since its last success or expired query reach the threshold and the cooldown since its last failure is not over |
| `CircuitBreaker.BreakerOnAClock` | src/http/virtual_host.cpp:1269-1317 | The same for every cooldown, also zero or negative, on a clock that is past its epoch and not behind a recorded failure |
| `CircuitBreaker.FailuresOpen` | src/http/virtual_host.cpp:1269-1317 | In numbers: after n failures at one reading an upstream is refused if and only if the breaker is enabled, n is above zero and at least the threshold, and the seconds have not passed; after a success it is not |
| `CircuitBreaker.CooldownForgives` | src/http/virtual_host.cpp:1269-1292 | A query behind the cooldown starts from zero failures; a refused one changes nothing |
| `CircuitBreaker.UpstreamsAreIndependent` | src/http/virtual_host.cpp:1269-1317 | Events on other upstreams make no difference |
| `CircuitBreaker.KeysAreDistinct` | src/http/virtual_host.cpp:642-647 | Upstreams with a scheme without a colon, an authority without a slash, and a base path that is empty or starts with one share a circuit breaker only if they are the same |
| `CircuitBreaker.OrderedUpstreams` | src/http/virtual_host.cpp:806-833 | At most sixteen attempts, around the ring from the starting point; of several upstreams none is tried twice |
| `CircuitBreaker.AttemptsExactly` | src/http/virtual_host.cpp:649-656 | The number of attempts is the largest that is at most sixteen, at most one more than the retries, and of several upstreams at most as many as there are |
| `CircuitBreaker.AroundTheRing` | src/http/virtual_host.cpp:806-833 | The attempts begin at the starting point, and each goes to the next upstream, behind the last one to the first |
| `Http3Frame.EncodeVarint` | src/protocol/http3_frame.cpp:21-53 | The shifts and masks give the big-endian integer with its two length bits, and refuse exactly 2^62 and above |
| `Http3Frame.ReadVarint` | src/protocol/http3_frame.cpp:55-81 | The loop computes the specified value and length, or reports too little input |
| `Http3Frame.VarintRoundTrip` | src/protocol/http3_frame.cpp:21-81 | Every value below 2^62 comes back, whatever follows |
| `Http3Frame.VarintIsShortest` | src/protocol/http3_frame.cpp:21-81 | Of all octet strings that decode to a value the encoder takes a shortest one (1, 2, 4 or 8 octets) |
| `Http3Forms.VarintExactly` | src/protocol/http3_frame.cpp:55-81 | A value is read, from so many octets, if and only if they are a form of it: one, two, four or eight octets, the shortest or not, with the two upper bits for the length |
| `Http3Forms.LongExample` | src/protocol/http3_frame.cpp:55-81 | The eight-octet example of section A.1 of RFC 9000 |
| `Http3Forms.ShorterExamples` | src/protocol/http3_frame.cpp:55-81 | The others, with a two-octet form of 37 |
| `Http3Frame.SerializeFrame` | src/protocol/http3_frame.cpp:83-89 | The wire form of the frame, or the refusal of a type or length of 2^62 or more |
| `Http3Frame.ReadFrame` | src/protocol/http3_frame.cpp:91-123 | The parser with its copying loop computes the specification |
| `Http3Frame.FrameRoundTrip` | src/protocol/http3_frame.cpp:83-123 | Parsing undoes serialising for every frame and suffix |
| `Http3Frame.FramePrefix` | src/protocol/http3_frame.cpp:91-123 | Every strict prefix of a frame is reported incomplete |
| `Http3Frame.ParseStable` | src/protocol/http3_frame.cpp:91-123 | A frame that has been found stays the first one when more input arrives |
| `Http3Frame.ReprintIsNoLonger` | src/protocol/http3_frame.cpp:83-123 | A parsed frame can always be serialised again, in no more octets than it was read from |
| `Http3Forms.FrameExactly` | src/protocol/http3_frame.cpp:91-123 | A frame is found if and only if the octets start with its kind and length in any forms and its payload |
| `Http3Frame.WriteSettings` | src/protocol/http3_frame.cpp:125-133 | The loop prints the settings, and refuses exactly when a number is 2^62 or more |
| `Http3Frame.ReadSettings` | src/protocol/http3_frame.cpp:135-159 | The loop computes the specified list, or the specified error |
| `Http3Frame.SettingsRoundTrip` | src/protocol/http3_frame.cpp:125-159 | SETTINGS lists of any length come back from the wire |
| `Http3Forms.SettingsExactly` | src/protocol/http3_frame.cpp:135-159 | A payload reads as these settings, or fails with this error, if and only if it is these settings in any forms and then nothing, a part of an identifier, or an identifier and a part of a value |

## Left out

- RequestText.ReadRequest: does not model `parse_target` and percent decoding; the request keeps its raw target, not the path and query that are derived from it.
- ChunkedDecoding.DecodeChunkedBody: memory that runs out in a loop that never ends, and where an exception of `substr` is caught, are not modelled; the verdicts for both are final here.
- HpackInteger.ReadInteger: continuation octets that carry zero past shift 28 add zero, where the C++ shift past 31 is not defined.
- Http2Server.ServerSession.HandleHeaderBlock: an HPACK failure is kept as an error value in the warning, without its text.
- Http2Server.ServerSession.HandleOneFrame: the branch that erases a pending header block on RST_STREAM is unreachable behind the CONTINUATION check, and is modelled as such.
- Http2Server.ServerSession.AcceptPreface: the input buffer is returned instead of changed through a reference; the SETTINGS parse error after the preface cannot occur, because the frame check comes first.
- Http1Framing.NextHttp1RequestFrame: error messages, which depend on the status only, are not part of the result.
- Http1Framing.SplitCsv: the trailing empty item that `std::getline` does not yield is dropped here with all empty items.
- RequestBody.RequestBodyAccumulator.Append: a spool file is an octet string; failing system calls, and the exceptions they raise, are not modelled.
- Http2Reads.DrainInput: the connection acts on one visible result at a time and goes on draining when its response has been written (src/core/server.cpp:3066-3111 and 4258-4268), and it stops for good at a result that closes it; the model collects all results in order, also behind such a one.
- Http1Arrival.SometimesServedExactly: reads can have any length, where the source reads at most 4096 octets at a time (src/core/server.cpp:2695 and 2723); some octets that it takes to be served at some timing, and that Http1Arrival.TimingExactly takes to depend on the timing, are always read in the same way there, because no read is long enough.
- ChunkedStream.SomeCuttingFinishes: the same.
- Http1Conversation.MessagesAreServed: closing the connection after a request, for its headers or for the number of requests served, and writing the responses are not modelled; the connection reads on after each.
- Http1Arrival.ServeRequest: WebSocket upgrades, the HTTP/2 preface and the dispatch of the request, which come between framing and streaming, are not part of it, and a refusal is its status.
- BodyStream.BodyReading.ProcessChunked: dispatching the finished request and sending the error response are left to the caller.
- Security.SecurityState.TryOpenConnection: matching an address against the block and allow lists is an input.
- Security.SecurityState.AllowRequest: the clock is read before the lock is taken; the reading is a parameter, and the rate theorems are about readings that do not go back in lock order.
- CircuitBreaker.BreakerRefinesHistory: the settings are fixed for the history; a breaker whose time ends at clock reading zero is excluded, because the code takes it for one that is not open.
- CircuitBreaker.OrderedUpstreams: the starting point, from the round-robin counter or the stable hash, is an input.
- Huffman.DecodeHuffman: the tree is built for each string here, and once per process in the server.
- Two upstreams whose authority and base path join to the same text share a circuit breaker, here as in the server; no theorem is about that.
- Padding octets are not counted in flow control, because the code strips them first; no theorem says otherwise.
- HTTP/2 priorities, server push and outbound flow control: the session has none.
- The older HTTP/2 path in src/core/server.cpp:3113-3426, which nothing calls.
- Sockets, epoll, TLS, DNS, timeouts, WebSocket and proxy forwarding: calls into foreign code.
- The SQLite configuration, the command line, logging, static files, compression, the web application firewall and SNI: plumbing or table lookups.
