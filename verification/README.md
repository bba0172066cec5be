# Verification of the bounded layer and the engine's protocols

This project models the parts of the iperf3 engine and its bounded layer that are hardest to get
right and proves properties of them in Dafny. To verify: `dafny verify dfyconfig.toml`.

## What is modelled

**Result frames.** The bounded reader takes a JSON frame in chunks, in one pass, and splits the
optional server output from the statistics. `Scan` gives every operation of the reader as a step on
its state, without chunks; `ResultReader` is the reader as it runs, one object updated in place, each
method proved to take that step. `Grammar` is an independent reference: RFC 8259 syntax trees, their
whitespace-free text and a parser; `Characters` says what its tables of characters and names mean in
terms of RFC 2781, RFC 3629 and the spelled names. `ScanExact`, `ValueExact`, `TraceLimits`, `Delivery` and
`RootExact` prove that the single pass accepts and produces exactly what parsing the whole text and
then filtering the tree would. `BoundedReader` adds the second parser, the errors and what the result
does not depend on; `Faults` traces every error to its cause.

**The tree library.** `TreeParser` and `Printer` are the cJSON parser and the printer into a fixed
buffer as they run, over real arrays. `Render`, `Placement`, `Escaping` and `RoundTrip` connect the
two: what is printed is parsed back.

**Output collection.** `Collector` and `JsonCollector` are the server's collectors under a byte
budget, `PeerStatus` the client's merge of the peer's status, `Results` the frame the server sends.
`EndToEnd` composes a collected record with printer, reader and merge; `Served` runs the collectors over
any lines and any intervals and ends with the client's record; `Exchange` takes that over both sockets.

**Others.** `BoundedSocket` is the framing on the control socket and `Interleaving` two ends of it, round by
round; `BoundedLog` the size-limited log
file over sessions and failures; `ControlProtocol` the two control programs and their queues as a
state machine over every interleaving; `Timers` the intrusive timer list and its run loop, `TimerWalk` the same loop over plain sequences;
`UdpAccounting` and `IntervalStats` the counters of a stream.

`Utf8.Lsp(t, n)` is shared: the longest prefix of `t` of whole scalars and at most `n` bytes. Three
implementations meet it: the log's backward scan over three bytes, the collector's forward scan, and
the reader's scalar-by-scalar decoder.

## How the source is read

- Bytes are integers below 256. Counters are unbounded integers except where width matters: the
  collected byte count saturates at 64 bits, seconds of a timer wrap at 32 bits, and datagram counters
  are 64-bit patterns read as signed numbers, with the increment beyond the largest signed value taken
  to wrap.
- JSON numbers stay tokens. Where a value is needed (the peer's status), reading a token is a
  parameter, of which the end-to-end results ask only that tokens of integers up to 2^53-1 are read as
  those integers.
- Allocation failures, the read callback, the socket, the clock, the cancel flag, the log's sink and
  formatting errors are parameters or scripts of outcomes; every outcome is covered.
- Text and JSON output never mix in one collection, since the engine's JSON mode is fixed for a test.
- A string or name in the tree library is a byte sequence; the printer asks that it holds no NUL, as a C
  string cannot.
- In a failure-free run the server never takes the state `IPERF_DONE`: it leaves its loop through its done
  flag (Sources/IperfCLib/iperf_server_api.c:737), which the client's `TEST_END` sets (:281), while the
  client ends in `IPERF_DONE`. `ControlProtocol.EndedStates` and `ControlProtocol.ServerNeverDone` state
  this. The server does set `IPERF_DONE` when the client closes the connection (:263) and when it
  terminates (:323); these failures are not modelled, and `ServerNeverDone` says nothing of them.

## Model

| member | source | states |
|---|---|---|
| Utf8.LspIsLongest | Sources/IperfCLib/iperf_bounded_log.c:70-82 | the scalar-by-scalar walk gives a valid prefix within the limit, and no longer one is valid |
| Utf8.LspTwice | Sources/IperfCLib/iperf_output_budget.c:106-130 | cutting twice is cutting once at the smaller limit, which is what lets two limits be composed |
| Utf8.LspConcat | Sources/IperfCLib/iperf_output_budget.c:119-129 | the prefix of a text continued by a piece is the whole text so far and the prefix of the piece in the room that is left |
| Utf8.EncodeDecode | Sources/IperfCLib/iperf_bounded_output.c:206-222 | decoding a well-formed scalar and encoding it again gives the same bytes; only the byte 0 decodes to NUL |
| ResultReader.Parser.Fail | Sources/IperfCLib/iperf_bounded_output.c:38-43 | only the first error is kept |
| ResultReader.Parser.Refill | Sources/IperfCLib/iperf_bounded_output.c:45-64 | the next chunk extends what was delivered by exactly its bytes, is never requested beyond the frame, and a refused chunk ends the input with the delivery's error |
| ResultReader.Parser.Peek | Sources/IperfCLib/iperf_bounded_output.c:45-64 | shows the byte at the reader's position in the frame, whatever chunk it is in; after an error it shows nothing and reads nothing |
| ResultReader.Parser.Emit | Sources/IperfCLib/iperf_bounded_output.c:74-93 | core bytes up to their limit, output bytes counted always and kept up to theirs, with all limits kept in every state |
| ResultReader.Parser.Take | Sources/IperfCLib/iperf_bounded_output.c:95-104 | consumes and emits one byte, and nothing after an error |
| ResultReader.Parser.Whitespace | Sources/IperfCLib/iperf_bounded_output.c:111-116 | skips whitespace at the position in the frame |
| ResultReader.Parser.DecodedScalar | Sources/IperfCLib/iperf_bounded_output.c:118-162 | delivers one decoded scalar to its destination, whole or not at all |
| ResultReader.Parser.Hex4 | Sources/IperfCLib/iperf_bounded_output.c:164-176 | four hexadecimal digits |
| ResultReader.Parser.String | Sources/IperfCLib/iperf_bounded_output.c:178-226 | a string literal read in one pass, as the step function of the specification says |
| ResultReader.Parser.Number | Sources/IperfCLib/iperf_bounded_output.c:230-254 | a number read in one pass, as the step function of the specification says |
| ResultReader.Parser.Value | Sources/IperfCLib/iperf_bounded_output.c:256-296 | a value read in one pass; the recursion is bounded by the unread bytes and by the depth limit |
| ResultReader.Parser.CoreKey | Sources/IperfCLib/iperf_bounded_output.c:298-311 | a name written again from its decoded bytes |
| ResultReader.Parser.BeginOutput | Sources/IperfCLib/iperf_bounded_output.c:313-324 | a fresh output record, or an allocation error |
| ResultReader.Parser.Member | Sources/IperfCLib/iperf_bounded_output.c:326-383 | one top-level member: its name, the duplicate check, its value and where that goes |
| ResultReader.Parser.Root | Sources/IperfCLib/iperf_bounded_output.c:326-390 | the whole pass over chunks has the effect of the step function on the undivided frame |
| ScanExact.EscapeExact | Sources/IperfCLib/iperf_bounded_output.c:186-205 | an escape is accepted exactly when RFC 8259 section 7 has one there, surrogates in pairs only, and gives its scalar; `Characters.EscapeIsUtf16` says which scalar that is |
| ScanExact.MultibyteExact | Sources/IperfCLib/iperf_bounded_output.c:206-222 | a multi-byte scalar is accepted exactly when RFC 3629 section 4 has one there: the range check on the value is the second-byte rule |
| ScanExact.NumberExact | Sources/IperfCLib/iperf_bounded_output.c:230-254 | a number is accepted exactly when it is one of RFC 8259 section 6 with at most 63 characters, and ends where the grammar ends it |
| Characters.Hex4IsNumber | Sources/IperfCLib/iperf_bounded_output.c:164-176 | four bytes are read as a number exactly if they are its hexadecimal digits, most significant first, each in either case |
| Characters.EscapeIsUtf16 | Sources/IperfCLib/iperf_bounded_output.c:186-205 | escapes denote a scalar exactly if they are its UTF-16: one unit in the basic plane, the high and the low unit of section 2.1 of RFC 2781 beyond it; a lone half or a pair in the wrong order denotes none |
| Characters.EscapedScalarIsRead | Sources/IperfCLib/iperf_bounded_output.c:186-205 | the strict and the lenient grammar both read the escapes of any scalar, in digits of either case, as that scalar |
| Characters.ShortEscapeIs | Sources/IperfCLib/iperf_bounded_output.c:190-195 | the letters of the two-byte escapes and the characters they denote, and no others |
| Characters.EscapedIs | Sources/IperfCLib/cjson.c:981-1026 | how each byte is written: a backslash before quotation mark and backslash, a letter for the control characters that have one, four lower-case digits for the others, itself otherwise |
| Characters.EncodeIsPayload | Sources/IperfCLib/iperf_bounded_output.c:124-138 | the bytes written for a scalar are one well-formed scalar of RFC 3629, and their payload bits carry its value |
| Characters.DecodeIsPayload | Sources/IperfCLib/iperf_bounded_output.c:206-222 | the value of a scalar read is what its payload bits carry |
| Characters.CharactersAre | Sources/IperfCLib/iperf_bounded_output.c:106-116 | the bytes that are whitespace and digits, and how the case of a name is ignored |
| Characters.WordsAre | Sources/IperfCLib/iperf_bounded_output.c:277-281 | the three literal names, the punctuation, and the name of the intervals |
| Characters.UniqueMeans | Sources/IperfCLib/iperf_bounded_output.c:326-352 | the duplicate check accepts exactly the objects in which each of the nine protocol fields, in whatever case, occurs at most once |
| Characters.FieldsAre | Sources/IperfCLib/iperf_bounded_output.c:331-333 | the spelling of seven of the nine protocol fields that must be unique |
| Characters.LongFieldsAre | Sources/IperfCLib/iperf_bounded_output.c:331-333 | the spelling of the other two |
| Characters.OutputNamesAre | Sources/IperfCLib/iperf_bounded_output.c:356-372 | the spelling of the two output members |
| Characters.StatusNamesAre | Sources/IperfCLib/iperf_output_budget.c:258-276 | the spelling of the status and of its fields |
| Characters.JsonIsPreferred | Sources/IperfCLib/iperf_bounded_output.c:356-377 | the output of a frame is its JSON member if it has one, and otherwise its text member, in whatever order and case they come |
| Characters.WrongKindIs | Sources/IperfCLib/iperf_bounded_output.c:356-377 | an output member of the wrong kind is reported as invalid data with no byte |
| ValueExact.ValueTraced | Sources/IperfCLib/iperf_bounded_output.c:256-296 | a value is accepted exactly when the grammar has one, its names hold no NUL, its numbers are short and no limit is met, and then exactly its whitespace-free text was emitted |
| TraceLimits.TraceStats | Sources/IperfCLib/iperf_bounded_output.c:256-269 | what reading a value enters, emits and how deep it goes are its number of nodes, its text and its height |
| TraceLimits.OutputRunExact | Sources/IperfCLib/iperf_bounded_output.c:74-93 | JSON output stays complete exactly when all its bytes and nodes fit; otherwise nothing of it is kept, a limit it exceeds is the reason, and its bytes are counted all the same |
| Delivery.TextReceived | Sources/IperfCLib/iperf_bounded_output.c:118-162 | text output received scalar by scalar is the longest prefix of whole scalars within the limit, with the full length counted, and is given up at a NUL |
| RootExact.RootIsExact | Sources/IperfCLib/iperf_bounded_output.c:326-390 | a frame is accepted exactly when it is strict JSON of an object within the limits without repeated protocol fields; then the core is the whitespace-free text of that object without its output members, same order and decoded names, and the output record is what those members denote |
| RootExact.RootNeedsAll | Sources/IperfCLib/iperf_bounded_output.c:384-389 | a frame that does not arrive whole is rejected |
| BoundedReader.CoreIsReadable | Sources/IperfCLib/iperf_bounded_output.c:420-431 | the tree library reads the core of every accepted frame, and as the object the frame denotes without its output members: two different parsers agree |
| BoundedReader.ReadBoundedResults | Sources/IperfCLib/iperf_bounded_output.c:392-441 | the whole reader as a function of what was delivered: the argument, size and first memory error with their records and before anything is read, the tree and output on success, no output and an error on failure; success consumes exactly the frame, no request reaches beyond it, the replies it used brought the bytes it read, and the reader is never more than one chunk ahead of the scan |
| Faults.RootFault | Sources/IperfCLib/iperf_bounded_output.c:38-390 | the error a scan ends with is malformed input, a limit, memory that was refused or the error that ended the delivery, and no other |
| Faults.ReasonToldIs | Sources/IperfCLib/iperf_bounded_output.c:432-440 | the reason told for a rejected frame: memory exactly for a memory error, invalid data exactly for malformed input, a failed read for everything else; with the whole frame there and memory enough it is one of the last two, and the record holds nothing |
| BoundedReader.AnyFragmentation | Sources/IperfCLib/iperf_bounded_output.c:45-64 | every cutting of a frame into chunks of 1 to 4096 bytes delivers the frame, and nothing after it is asked for |
| BoundedReader.ChunkingIndependence | Sources/IperfCLib/iperf_bounded_output.c:392-441 | two fragmentations of the same frame have the same result |
| BoundedReader.LimitIrrelevant | Sources/IperfCLib/iperf_bounded_output.c:392-441 | the tree does not depend on the output limit |
| BoundedReader.OutputIrrelevant | Sources/IperfCLib/iperf_bounded_output.c:356-377 | two accepted frames that differ only in what their output members hold give the same tree, whatever the limits |
| TreeParser.ParseBuffer.SkipWhitespace | Sources/IperfCLib/cjson.c:1049-1072 | skips every byte up to the space and steps back from the end |
| TreeParser.ParseBuffer.Utf16Literal | Sources/IperfCLib/cjson.c:663-781 | an escape or pair is written as the UTF-8 of its scalar, the one `Characters.EscapeIsUtf16` names, within the space the caller reserved |
| TreeParser.ParseBuffer.FindEnd | Sources/IperfCLib/cjson.c:797-819 | the first pass finds the closing quote the grammar has and counts the bytes escapes save |
| TreeParser.ParseBuffer.Decode | Sources/IperfCLib/cjson.c:821-896 | decoding never writes beyond the computed allocation, for any input, and gives the bytes a literal denotes |
| TreeParser.ParseBuffer.ParseString | Sources/IperfCLib/cjson.c:784-910 | every literal of the grammar is read as the bytes it denotes |
| TreeParser.ParseBuffer.ParseNumber | Sources/IperfCLib/cjson.c:316-390 | every number of the grammar with at most 63 characters is taken whole |
| TreeParser.ParseBuffer.ParseValue | Sources/IperfCLib/cjson.c:1323-1375 | every value of the grammar within the nesting limit gives the tree it denotes, and the buffer is never left |
| TreeParser.ParseBuffer.ParseCompound | Sources/IperfCLib/cjson.c:1452-1547 | arrays and objects likewise, with the depth restored |
| TreeParser.ParseBuffer.ParseName | Sources/IperfCLib/cjson.c:1668-1684 | a member name with its colon |
| TreeParser.ParseTerminated | Sources/IperfCLib/cjson.c:1106-1183 | a NUL-terminated text of the grammar gives the tree it denotes |
| Tree.LenientValue | Sources/IperfCLib/cjson.c:784-910 | every strict text is read alike by the lenient grammar of the tree library |
| Printer.PrintBuffer.Ensure | Sources/IperfCLib/cjson.c:450-533 | with a fixed buffer there is room exactly when the request and a terminator fit |
| Printer.PrintBuffer.UpdateOffset | Sources/IperfCLib/cjson.c:536-546 | the offset ends at the end of the printed text, wherever in it it started |
| Printer.PrintBuffer.PrintNumber | Sources/IperfCLib/cjson.c:556-623 | a number is printed exactly when it fits the number buffer and the output |
| Printer.PrintBuffer.EscapeCharacters | Sources/IperfCLib/cjson.c:940-964 | the size computed for an escaped string is its size |
| Printer.PrintBuffer.PrintString | Sources/IperfCLib/cjson.c:913-1032 | an escaped string is printed exactly when it fits with two bytes to spare, and never beyond the buffer |
| Printer.PrintBuffer.PrintValue | Sources/IperfCLib/cjson.c:1378-1449 | a value is printed exactly when its text fits with two bytes to spare, and what preceded it is untouched |
| Printer.PrintBuffer.PrintArray | Sources/IperfCLib/cjson.c:1550-1609 | arrays likewise |
| Printer.PrintBuffer.PrintObject | Sources/IperfCLib/cjson.c:1725-1836 | objects likewise, with their indentation when formatted |
| Printer.PrintPreallocated | Sources/IperfCLib/cjson.c:1303-1320 | printing into n bytes succeeds exactly when the text and two more bytes fit, and then leaves the text and a NUL |
| Escaping.EscapeGrowth | Sources/IperfCLib/cjson.c:913-966 | escaping grows a text at most sixfold and never shrinks it |
| Escaping.EscapedBody | Sources/IperfCLib/cjson.c:972-1031 | an escaped string read again is the string |
| Render.RenderedText | Sources/IperfCLib/cjson.c:1550-1836 | the compact and the formatted text of a well-formed syntax tree parse back to that tree |
| Render.ParsedIsWellFormed | Sources/IperfCLib/cjson.c:1323-1375 | what the grammar parses can be printed and parsed again |
| RoundTrip.PrintedIsReadable | Sources/IperfCLib/cjson.c:1106-1183 | the text of every tree within the nesting limit is one the parser must read as that tree |
| RoundTrip.PrintThenParse | Sources/IperfCLib/cjson.c:1303-1320 | printing a tree, compact or formatted, and parsing the buffer gives back the tree |
| Collector.Utf8Prefix | Sources/IperfCLib/iperf_output_budget.c:72-96 | the forward scan stops at the first NUL or malformed scalar; a scalar cut by the limit is excused exactly when the text was cut |
| Collector.PieceKept | Sources/IperfCLib/iperf_output_budget.c:119-129 | what is kept of a piece makes the longest prefix of the whole text |
| Collector.CutIsFinal | Sources/IperfCLib/iperf_output_budget.c:115-115 | text after the cut changes nothing |
| Collector.TextCollector.Begin | Sources/IperfCLib/iperf_output_budget.c:57-68 | a record is begun once, or given up when it cannot be allocated |
| Collector.TextCollector.CountBytes | Sources/IperfCLib/iperf_output_budget.c:98-104 | the count saturates at 64 bits and then is no longer exact |
| Collector.TextCollector.AppendFormat | Sources/IperfCLib/iperf_output_budget.c:106-130 | after any pieces the record is complete with all the text, or truncated to its longest prefix, or invalid: exactly if formatting failed, changed its mind about the length, or what there is room for is not UTF-8 without NUL up to a scalar the limit cuts |
| Collector.PieceRefused | Sources/IperfCLib/iperf_output_budget.c:116-129 | a piece the scan refuses has a NUL or a malformed scalar in what there is room for, so refusing depends on the text and not on the scan |
| Collector.TextCollector.CollectPrintf | Sources/IperfCLib/iperf_output_budget.c:140-149 | a line and its prefix are collected in that order, and nothing once the output is final |
| Collector.TextCollector.Finish | Sources/IperfCLib/iperf_output_budget.c:244-250 | clean text ends as the longest prefix within the limit, truncated exactly when it was longer, with its full length; without memory it ends as discarded and is still counted |
| JsonCollector.Shape | Sources/IperfCLib/iperf_output_budget.c:151-159 | the count is exact, a tree is refused exactly when it is too deep or has too many nodes, and the reason is the limit that is met first |
| JsonCollector.ReasonIsLimit | Sources/IperfCLib/iperf_output_budget.c:151-159 | there is no reason exactly within the limits; the reason given is always a limit that is exceeded, so the only one if it is only one |
| JsonCollector.JoinedMore | Sources/IperfCLib/iperf_output_budget.c:180-193 | one more interval adds a comma, its compact text and its nodes |
| JsonCollector.RawDocument | Sources/IperfCLib/iperf_output_budget.c:213-225 | the retained text printed as raw intervals is the text of the document of the whole history, and the counts agree |
| JsonCollector.IntervalCollector.CollectInterval | Sources/IperfCLib/iperf_output_budget.c:168-194 | the buffer stays the comma-join of the retained intervals with room for brackets and the count that of the history; an interval is retained exactly when it fits, and otherwise everything is given up for exactly one reason: its shape, then memory, then its bytes; after that nothing is retained again |
| JsonCollector.IntervalCollector.FinalizeJson | Sources/IperfCLib/iperf_output_budget.c:203-242 | a complete document is exactly the print of the unbounded document with its intervals last, and there is one exactly when it stands every check; otherwise the record is empty and its reason is the first check that fails: memory, presence, shape, bytes, UTF-8 |
| JsonCollector.IntervalCollector.Finish | Sources/IperfCLib/iperf_output_budget.c:244-250 | the document is made once |
| PeerStatus.FindIsFirst | Sources/IperfCLib/cjson.c:1891-1921 | the first member of exactly that name is found, and nothing exactly if there is none |
| PeerStatus.HasDuplicate | Sources/IperfCLib/iperf_output_budget.c:300-309 | a known field occurs twice |
| PeerStatus.IntegerField | Sources/IperfCLib/iperf_output_budget.c:277-284 | a field counts exactly when it is an integer in its range |
| PeerStatus.ApplyPeerStatus | Sources/IperfCLib/iperf_output_budget.c:268-324 | the record after the peer's status as a function of record and results; what that function refuses and what it takes over is stated over the numbers of the status by the three members that follow |
| PeerStatus.MalformedIsRefused | Sources/IperfCLib/iperf_output_budget.c:268-309 | a status that is no object of version 1, or has a state outside 1 to 4, a format outside 1 to 2, a reason outside 0 to 6, a number that is not whole, or a known field twice makes the record invalid data without a byte |
| PeerStatus.ContradictionIsRefused | Sources/IperfCLib/iperf_output_budget.c:285-299 | so does a format other than the one received, a state below 3 where nothing was received, a reason with state 1, state 2 with anything but text and a byte limit, and a state from 3 on without a reason |
| PeerStatus.OtherIsAdopted | Sources/IperfCLib/iperf_output_budget.c:310-324 | every other status is taken over: value, state, format, reason and observed length of the result, field by field from its numbers |
| PeerStatus.PeerNeverImproves | Sources/IperfCLib/iperf_output_budget.c:285-324 | a peer's status never improves a state and never adds or changes a byte, and without a status nothing changes |
| Results.StatusRoundTrip | Sources/IperfCLib/iperf_output_budget.c:256-266 | the status a server writes is read back as the record it was made from |
| Results.TextIsUtf8 | Sources/IperfCLib/iperf_output_budget.c:234-237 | if the text of a document is UTF-8 then so is every string in it, whatever was escaped |
| EndToEnd.FrameIsRead | Sources/IperfCLib/iperf_bounded_output.c:326-441 | a frame with one output member among statistics within the limits is accepted, gives the statistics as its tree and that member as its output |
| EndToEnd.ClaimArrives | Sources/IperfCLib/iperf_output_budget.c:270-284 | the status is found in the received tree and read as the server meant it |
| EndToEnd.TextEndToEnd | Sources/IperfCLib/iperf_output_budget.c:268-324 | text: the client ends with the longest prefix within both limits, truncated exactly when the text is longer, with its full length if a number can carry it |
| EndToEnd.DocumentIsAcceptable | Sources/IperfCLib/iperf_output_budget.c:219-227 | the sender's node and depth limits imply the receiver's |
| EndToEnd.JsonEndToEnd | Sources/IperfCLib/iperf_output_budget.c:203-266 | JSON: a finalised document arrives byte for byte at every client whose limit it fits and as discarded with no fragment at every other, with its length in both cases |
| EndToEnd.DiscardedEndToEnd | Sources/IperfCLib/iperf_output_budget.c:256-266 | output the server gave up leaves no byte at the client, which learns state and reason |
| EndToEnd.StatisticsCanBeMet | Sources/IperfCLib/iperf_output_budget.c:256-266 | the premise of the end-to-end results holds whatever the output: results with nothing but its status are within the limits |
| Results.IntegersCanBeRead | Sources/IperfCLib/cjson.c:354-383 | the premise on reading numbers can be met |
| EndToEnd.FrameFits | Sources/IperfCLib/iperf_output_budget.c:326-341 | a frame whose core is within its megabyte fits the writer's buffer and the frame limit |
| EndToEnd.FrameIsAccepted | Sources/IperfCLib/iperf_bounded_output.c:326-441 | every frame with collected text or without output is accepted |
| Served.CollectText | Sources/IperfCLib/iperf_output_budget.c:57-149 | any lines, however the text is divided among them: the record is that of their concatenation |
| Served.TextServed | Sources/IperfCLib/iperf_output_budget.c:57-324 | text over any lines: the client's record of the collector's record in its frame is the longest prefix of all that was printed within both limits |
| Served.WholeHasRoom | Sources/IperfCLib/iperf_output_budget.c:168-194 | a document that stands every check as a whole has room for each of its intervals in turn |
| Served.WholeIsFinalisable | Sources/IperfCLib/iperf_output_budget.c:203-242 | a document the server finalises satisfies the premises of the end-to-end result |
| Served.CollectJson | Sources/IperfCLib/iperf_output_budget.c:168-250 | any intervals, one by one: the result is the whole document, exactly when that stands every check as a whole and memory suffices, and otherwise nothing and exactly the reason of the run |
| Served.RunReasonIs | Sources/IperfCLib/iperf_output_budget.c:151-242 | with memory enough the reason of a run is always a limit that the document of all its intervals exceeds, or that its text is not UTF-8, and there is none exactly if the document stands every check |
| Served.MissingMeans | Sources/IperfCLib/iperf_output_budget.c:168-242 | without memory the reason is memory, unless the shape of the first interval is wrong before it is asked for; without a document it is invalid data |
| Served.RunIsWhole | Sources/IperfCLib/iperf_output_budget.c:168-242 | a run has no reason to be given up exactly if nothing is missing and the document stands every check |
| Served.JsonServed | Sources/IperfCLib/iperf_output_budget.c:168-324 | JSON over any intervals: the client's record is the document if it fits its limit, and otherwise no byte of it, discarded for exactly the reason of the run |
| Exchange.SendResults | Sources/IperfCLib/iperf_output_budget.c:326-341 | header and text are sent exactly when they fit the buffer and the socket takes them all; otherwise a front of them, or nothing |
| Exchange.DeliverResults | Sources/IperfCLib/iperf_bounded_socket.c:54-134 | from one socket to the other in any interleaving of their rounds: the client has a record only if the whole frame was sent, and then it is that of the frame and what follows is still to be read; and it has one whenever the server's rounds send the frame, the client's suffice after that, and the frame is acceptable |
| Exchange.ServeText | Sources/IperfCLib/iperf_output_budget.c:140-341 | the whole way for text: lines printed at the server, its record, the frame, both sockets and the merge give the longest prefix of all that was printed within both limits |
| Exchange.ServeJson | Sources/IperfCLib/iperf_output_budget.c:168-341 | the whole way for JSON: intervals collected one by one give the client the document byte for byte, or no byte of it and exactly the reason of the run |
| BoundedSocket.Socket.Read | Sources/IperfCLib/iperf_bounded_socket.c:25-52 | one read under deadline, cancellation and errors takes bytes from the front of what arrived, or none |
| BoundedSocket.Socket.Write | Sources/IperfCLib/iperf_bounded_socket.c:89-116 | all of the bytes in order, or a prefix of them and an error, as a function of the rounds |
| BoundedSocket.ReadEnds | Sources/IperfCLib/iperf_bounded_socket.c:25-52 | after any idle rounds a read ends in the first round that is not, with error 89 if cancelled, 22 without a clock, 60 if late, 9 for a bad descriptor, the system's own, the end of the stream, or as much as is asked for, offered and there; what came in meanwhile stays |
| BoundedSocket.WriteEnds | Sources/IperfCLib/iperf_bounded_socket.c:89-116 | a write ends likewise, with error 32 if nothing is taken, having sent no more than before; otherwise it goes on after as much as is left, taken and a chunk |
| BoundedSocket.Socket.ReadHeader | Sources/IperfCLib/iperf_bounded_socket.c:73-84 | the header is reassembled from any fragments and is the first four bytes |
| BoundedSocket.Socket.WriteResults | Sources/IperfCLib/iperf_bounded_socket.c:118-134 | success and how much of header and frame is on the wire, as a function of the rounds; a failure leaves a prefix |
| BoundedSocket.WritesAll | Sources/IperfCLib/iperf_bounded_socket.c:89-116 | rounds that are not cancelled, late or failing send everything once as many of them transfer something as there are bytes |
| BoundedSocket.FrameIsSent | Sources/IperfCLib/iperf_bounded_socket.c:118-134 | such rounds send header and frame whole |
| BoundedSocket.SocketDelivers | Sources/IperfCLib/iperf_bounded_socket.c:25-52 | however the socket cuts it, what arrives is the front of what was sent: all of the frame, or less and an error |
| BoundedSocket.HeaderArrives | Sources/IperfCLib/iperf_bounded_socket.c:73-84 | such rounds, after everything has come in, reassemble the header whatever pieces it comes in |
| BoundedSocket.FrameArrives | Sources/IperfCLib/iperf_bounded_socket.c:25-52 | such rounds deliver a frame whole |
| BoundedSocket.WholeFrameIsRead | Sources/IperfCLib/iperf_bounded_socket.c:54-87 | a frame that comes in among such rounds is read as a whole, and leaves what follows it and the other rounds, so that frames can be read in a row |
| BoundedSocket.ReadTakesFront | Sources/IperfCLib/iperf_bounded_socket.c:25-52 | a read takes its bytes off the front of what has come in and what will, and nothing else |
| BoundedSocket.RepliesTake | Sources/IperfCLib/iperf_bounded_socket.c:25-52 | after any number of replies the stream is short of exactly the bytes they brought; they bring the whole frame only if they are all there are |
| Interleaving.WritesOn | Sources/IperfCLib/iperf_bounded_socket.c:89-116 | the first rounds of a writer are the front of its run: what they send grows and what they complete stays complete |
| Interleaving.FedArrives | Sources/IperfCLib/iperf_bounded_socket.c:25-52 | in any interleaving what comes in during the receiver's rounds is the stream up to what is on the wire by the last of them |
| Interleaving.ComesWhole | Sources/IperfCLib/iperf_bounded_socket.c:54-134 | in any interleaving, if a header and the whole frame it announces come in, then they are those of the frame, all of it was sent, and everything after it comes in |
| Interleaving.IsReadWhole | Sources/IperfCLib/iperf_bounded_socket.c:54-134 | a frame that was sent is read as a whole if the receiver has as many rounds with a transfer after that as there are bytes, whatever happened before |
| BoundedSocket.ReadResults | Sources/IperfCLib/iperf_bounded_socket.c:54-87 | an invalid limit is refused before anything is read; the result is a function of the rounds, and so is the socket after a frame that was read, with exactly header and frame gone; otherwise it is the socket after the replies used |
| BoundedSocket.HeaderRoundTrip | Sources/IperfCLib/iperf_bounded_socket.c:130-131 | the length survives header and back |
| BoundedSocket.HeaderIsBigEndian | Sources/IperfCLib/iperf_bounded_socket.c:130-131 | four bytes are the header of a length exactly if they are its big-endian number |
| BoundedSocket.FrameRoundTrip | Sources/IperfCLib/iperf_bounded_socket.c:118-134 | what is written for a frame is taken for that frame and leaves what follows untouched |
| BoundedLog.MarkerIs | Sources/IperfCLib/iperf_bounded_log.c:10-11 | the marker, spelled |
| BoundedLog.CutIsLsp | Sources/IperfCLib/iperf_bounded_log.c:70-82 | looking back at three bytes cuts a valid stream where its longest prefix ends |
| BoundedLog.FinalIsLsp | Sources/IperfCLib/iperf_bounded_log.c:84-113 | a valid stream that does not fit leaves its longest prefix before the marker's room and one marker |
| BoundedLog.AllCallsHand | Sources/IperfCLib/iperf_bounded_log.c:49-131 | however a stream is cut into pieces, the writes of the session add up to its final content |
| BoundedLog.CallsGrow | Sources/IperfCLib/iperf_bounded_log.c:49-113 | at any time what was handed to the file is the front of the final content of any continuation |
| BoundedLog.TakesFront | Sources/IperfCLib/iperf_bounded_log.c:33-47 | the file grows by a front of what it is handed, and by all of it exactly as long as no write fails |
| BoundedLog.GoodNeverFails | Sources/IperfCLib/iperf_bounded_log.c:33-47 | a sink whose replies are good for the writes it gets never fails |
| BoundedLog.ErrorIsOfLast | Sources/IperfCLib/iperf_bounded_log.c:27-47 | the write error is what the last reply used reports, or 5 if that is nothing; no reply before it failed and none is used after it |
| BoundedLog.Session.WriteBytes | Sources/IperfCLib/iperf_bounded_log.c:33-47 | one write as a function of how the sink fares: nothing after a failure or without bytes, the error of the write that fails; the counters agree |
| BoundedLog.Session.RetainPrefix | Sources/IperfCLib/iperf_bounded_log.c:51-66 | the last bytes are held back, everything before them is passed on in two writes, in order |
| BoundedLog.Session.Utf8Prefix | Sources/IperfCLib/iperf_bounded_log.c:70-82 | the backward scan gives the bytes before an incomplete final scalar |
| BoundedLog.Session.Write | Sources/IperfCLib/iperf_bounded_log.c:84-113 | wherever a stream is cut into writes, the file is what the sink makes of the writes the pieces give |
| BoundedLog.Session.Close | Sources/IperfCLib/iperf_bounded_log.c:115-131 | the file after a session is what the sink makes of all its writes, and the session is flagged exactly when the stream did not fit |
| BoundedLog.Open | Sources/IperfCLib/iperf_bounded_log.c:133-197 | the first error of opening, the size that is reported, and whether the session writes, for every way opening can fail; a disabled log is not opened again |
| BoundedLog.OpenErrorIs | Sources/IperfCLib/iperf_bounded_log.c:133-197 | the open error for every way of opening, number by number: 12 without memory, 27 for a file beyond the limit, 22 for a limit below the marker, otherwise the system's, or 5 |
| BoundedLog.RunSession | Sources/IperfCLib/iperf_bounded_log.c:84-197 | file, remaining replies and write error are a function of the pieces and the replies: existing bytes are untouched, the session adds its final content or, exactly when a reply that is used falls short or fails, a front of it; the growth is counted, and open, write and close error are exactly those of their causes |
| BoundedLog.RunsAreHealthy | Sources/IperfCLib/iperf_bounded_log.c:133-197 | the function of the sessions against the healthy content: a front of it always, all of it if nothing fails, never beyond the limit |
| BoundedLog.RunsAdd | Sources/IperfCLib/iperf_bounded_log.c:133-197 | the function of the sessions against their texts: whole texts, then one part, then nothing |
| BoundedLog.RunSessions | Sources/IperfCLib/iperf_bounded_log.c:133-197 | over any sessions file, replies, write error and whether the log is disabled are a function of the sessions and the replies; the file is a front of what it would hold if nothing failed, and all of it if nothing does, which good replies ensure; undisturbed sessions add their whole text, the last one that writes is the first that cannot be opened or closed, does not fit or meets a failed write, and adds a front with at most one marker |
| ControlProtocol.StepKeeps | Sources/IperfCLib/iperf_server_api.c:669-1008 | every step of either side keeps the invariant that ties both places, both queues and the streams together |
| ControlProtocol.EveryRunIsSafe | Sources/IperfCLib/iperf_client_api.c:342-420 | in every run each read meets the kind of message it expects, neither side fails, and the client runs the test only after the server accepted every stream |
| ControlProtocol.NeverStuck | Sources/IperfCLib/iperf_server_api.c:669-1008 | until both sides have ended, one of them can move |
| ControlProtocol.RunsAreBounded | Sources/IperfCLib/iperf_client_api.c:664-844 | no interleaving goes on forever |
| ControlProtocol.CanComplete | Sources/IperfCLib/iperf_api.c:2394-2454 | from every reachable state the session can be completed |
| ControlProtocol.EndedStates | Sources/IperfCLib/iperf_server_api.c:736-740 | at the end the client is done, the server is displaying results, and the client's last state byte is unread |
| ControlProtocol.ServerNeverDone | Sources/IperfCLib/iperf_server_api.c:281-301 | the server reaches the done state in no failure-free run, so the two sides are never both in it |
| ControlProtocol.IntruderChangesNothing | Sources/IperfCLib/iperf_server_api.c:229-243 | a second control connection outside stream creation changes nothing of the session |
| ControlProtocol.StreamsArePaired | Sources/IperfCLib/iperf_api.c:5254-5280 | from the test start on, for every stream count, there are as many streams as the mode asks for, numbered 1, 3, 4, 5 and on; every stream of a sending client sends and none of a receiving one, in both directions exactly the first half does; at the server the k-th stream has the same number and the opposite role, and each number finds exactly its counterpart |
| ControlProtocol.StatesInOrder | Sources/IperfCLib/iperf_client_api.c:342-420 | no step takes either side back or past one of the nine states |
| ControlProtocol.StatesKeepPace | Sources/IperfCLib/iperf_server_api.c:669-1008 | in every run the client is at most one state ahead of the server, and only at the end of the test and of the session, and the server at most two ahead of the client |
| ControlProtocol.ReadersArePaired | Sources/IperfCLib/iperf_api.c:3096-3186 | where either side reads results, the record of each stream finds exactly its counterpart |
| Timers.AddIsPlus | Sources/IperfCLib/iperf_time.c:92-99 | adding microseconds is addition until the 32-bit seconds wrap |
| Timers.CompareIsOrder | Sources/IperfCLib/iperf_time.c:121-132 | comparison is the order of the times in microseconds |
| Timers.DiffIsDistance | Sources/IperfCLib/iperf_time.c:143-174 | the difference is the distance, and tells whether the first time is not later |
| Timers.TimerList.ListAdd | Sources/IperfCLib/timer.c:61-96 | a timer goes behind every one due no later; links, order and disjointness of both lists hold |
| Timers.TimerList.ListRemove | Sources/IperfCLib/timer.c:100-108 | a timer is taken out and the others keep their order and links |
| Timers.TimerList.ListResort | Sources/IperfCLib/timer.c:112-118 | a timer whose time changed is where it belongs |
| Timers.TimerList.Create | Sources/IperfCLib/timer.c:122-150 | a free timer is used before a new one is made; it expires when asked and stands behind every timer due no later |
| Timers.TimerList.Timeout | Sources/IperfCLib/timer.c:154-173 | the wait is that of the earliest timer, zero if it is late, none without timers |
| Timers.TimerList.Reset | Sources/IperfCLib/timer.c:203-211 | a timer restarts from now and stands behind every timer due no later |
| Timers.TimerList.Cancel | Sources/IperfCLib/timer.c:215-223 | a timer moves from the active to the free list |
| Timers.TimerList.Fire | Sources/IperfCLib/timer.c:183-197 | one firing makes of the list what the pure step does: a one-shot timer is freed, a periodic one moves one period on and stands behind every timer due no later, and the walk goes on at its old successor |
| Timers.TimerList.Run | Sources/IperfCLib/timer.c:177-199 | with positive periods the run ends, and what fires, in which order, the list it leaves and what it frees are those of the pure walk; so a timer fires exactly if it was due, a one-shot once and is then free, a periodic one moves one period per firing and never fires early; nothing else becomes active or free, and nothing free is lost |
| TimerWalk.WalkTells | Sources/IperfCLib/timer.c:177-199 | in the walk an entry fires exactly if the walk reaches it and it is due: a one-shot once, and it leaves; a periodic one as often as it moves, a period each time, and was due each time |
| TimerWalk.FiresInOrder | Sources/IperfCLib/timer.c:177-199 | timers fire in the order of their due times, and none twice in a row: before a late periodic timer fires again another one must |
| TimerWalk.AloneFiresOnce | Sources/IperfCLib/timer.c:177-199 | a timer alone in the list fires once however many periods it is late: it does not catch up |
| UdpAccounting.Receiver.Receive | Sources/IperfCLib/iperf_udp.c:165-208 | the highest number is exact as long, and only as long, as all numbers fit a signed counter; a number beyond the highest adds the gap to the losses, any other takes one off while there is one; so the loss is exactly the numbers missing if none came twice, and between its bounds otherwise |
| UdpAccounting.FirstBeyondRange | Sources/IperfCLib/iperf_udp.c:177-187 | a first datagram numbered 2^63 is shown as -2^63: beyond the signed range the highest number is lost |
| UdpAccounting.MissingForward | Sources/IperfCLib/iperf_udp.c:177-187 | a number beyond the highest adds the gap before it to what is missing |
| UdpAccounting.MissingBackward | Sources/IperfCLib/iperf_udp.c:188-204 | any other number is missing no longer, if it was |
| UdpAccounting.OrderIrrelevant | Sources/IperfCLib/iperf_udp.c:165-208 | two receivers of the same numbers, each once, count the same highest number and the same losses whatever the order |
| IntervalStats.StreamResult.AddTotal | Sources/IperfCLib/iperf_udp.c:123-123 | the first addition puts a block in flight |
| IntervalStats.StreamResult.AddInterval | Sources/IperfCLib/iperf_udp.c:124-124 | the second addition takes it out of flight |
| IntervalStats.StreamResult.Report | Sources/IperfCLib/iperf_api.c:3960-4050 | the reports add up to the totals sampled although only the last is kept, and no byte is lost or counted twice |
| IntervalStats.Interleave | Sources/IperfCLib/iperf_api.c:3960-4058 | after any interleaving the total is every block started, at most one block is in flight, what waits is what was finished since the last sample, and the reports are those of the samples |
| IntervalStats.Conserved | Sources/IperfCLib/iperf_api.c:3960-4058 | over any interleaving what was started is what was reported, what waits and the one block in flight |
| IntervalStats.Telescopes | Sources/IperfCLib/iperf_api.c:4018-4030 | the per-report counts add up to the last sample |

## Left out

- ResultReader.Parser.Root: the counters reported for a frame that fails are not compared with the source, because after an error in the whitespace before a top-level value the model stops one step earlier.
- ResultReader.Parser.Number: number values are tokens; `strtod` is not modelled.
- TreeParser.ParseTerminated: says what happens on texts of the grammar only; the texts the library accepts beyond it, and those it refuses, are not characterised, and the buffer is taken to end with a NUL, as every caller here provides.
- Printer.PrintPreallocated: numbers are printed from tokens; `sprintf` is not modelled.
- Collector.TextCollector.AppendFormat: `vsnprintf` is its outcome, a text or a failure; the buffer is a sequence whose length is bounded by the limit.
- JsonCollector.IntervalCollector.FinalizeJson: moving the buffer by one byte in place is modelled on sequences; that the intervals item is detached and attached again at the end is stated through the members before and after it.
- BoundedLog.Session.Write: descriptor handling is left to the outcome of opening and writing.
- Exchange.DeliverResults: nothing of the client's reaches the server while it sends, so that a full send buffer is a round of the server's script and not a consequence of the client's.
- BoundedSocket.ReadResults: after a rejected frame the position is given by the replies used, which are known to within one chunk; that the timeout argument is refused and how the deadline follows from it are not modelled.
- BoundedSocket.Socket.Read: poll timeouts and descriptor flags are not modelled; a run ends at the deadline.
- ControlProtocol.EveryRunIsSafe: failures, terminations and byte-level framing of state bytes and JSON on the control connection are not part of the state machine.
- Timers.TimerList.Run: asks for positive periods, and that no periodic timer's next time wraps in this run; callbacks leave the list alone.
- IntervalStats.StreamResult.Report: 64-bit wrap-around of byte totals is not modelled, because the sums agree modulo any width.
- UdpAccounting.Receiver.Receive: jitter and timestamps are not modelled.
- Omit periods, thread cancellation and descriptor teardown are not modelled.
- Authentication, option parsing, parameter checks, error texts and report formatting are not modelled.
- TCP, SCTP and UDP data transfer, GSO and GRO, sockets, DNS and poll are foreign calls.
- The rest of the tree library (comparison, minifying, array builders, references) is not used by these paths.
