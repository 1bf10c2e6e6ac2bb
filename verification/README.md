# httpoll: a verified model

httpoll is a small single-threaded HTTP and WebSocket server. Around its system calls sit
several byte-level machines; this project models them in Dafny and proves what they do over
all inputs and all runs. Nothing was executed: every statement below is a Dafny proof about
the model.

## How it is modelled

* Code of the source that changes state is a class or a method with loops (`HttpHeaderParser`,
  `Connection`, `RouteTable`, `CircularBuffer`, `WebsocketConnection`, `BroadcastGroup`,
  `Server`, `Base64Encode`, ...). Each such method is proved equal to a specification function
  on values (`Push`, `Process`, `Put`, `Fill`, `Receive`, `RunBatch`, `Encode`, ...), and the
  modules whose names end in `Laws`, with `EndToEnd` and `WebsocketRuns`, prove what the
  source promises about these functions.
* The built configuration is modelled: `SMALL_MEMORY=1024` and `HPL_ENABLE_PING_PONG`
  (`src/httpoll.mk:10`).
* The kernel is a script of read results (`Connection.ReadEvent`), a set of registered
  connections, and byte queues of limited capacity. Handlers, peers and `accept` are
  parameters of events.
* `atoi` is glibc's: a saturating `strtol` cut down to `int`. Lengths and counters of 32 bits
  are taken modulo 2^32. Flag words are the sets of their bits. Iterators are positions; one
  moved past the end (possible only with embedded NULs) compares as the end.
* A `std::map` argument is the sequence of its entries: distinct keys, in key order.
* `ParserState.Hung` is not an enumerator of the source. It records a `PushLine` that never
  returns, so that theorems about streams need no assumption that lines are well-behaved.
  Methods require that it does not arise.

| files | part of the source |
|---|---|
| `Str`, `Http`, `HeaderParser`, `HeaderParserLaws`, `FieldLaws` | text comparison, methods and versions, the line parser |
| `Connection`, `ConnectionLaws`, `BodyLaws`, `AppendLaws` | the reassembly buffer and `ProcessDataIn` |
| `Response`, `ResponseLaws` | `MakeResponse`, printed and parsed again |
| `RequestLaws`, `CutLaws`, `EndToEnd`, `UpgradeLaws` | requests, streams with a body, both sent through the whole pipeline, and which requests become WebSockets |
| `Router`, `RouterLaws` | globs, regexes and the route table |
| `CircularBuffer`, `CircularBufferLaws` | the ring buffer |
| `WebsocketUtils`, `WebsocketConnection`, `WebsocketLaws`, `WebsocketRuns` | frames (sections 5.2 to 5.5 of RFC 6455) and sessions |
| `BroadcastGroup`, `BroadcastLaws` | the pipe, tee and splice fan-out |
| `Base64`, `Base64Laws` | the encoder (section 4 of RFC 4648) |
| `Server`, `ServerLaws` | `Poll` and the connection table |
| `Octets`, `Sequences`, `Wrappers` | helpers |

## Where the code does not keep the expected promise

Each of these is proved as an if-and-only-if, or with a family of inputs that shows it.

* The Connection loop returns only if every comma-separated part names a known token
  (`ConnectionLoopTerminatesIff`, `ConnectionValue`).
* The head of a request does not depend on how the kernel cuts the stream, but whether its
  body completes does: a read that would block returns before the buffer is looked at, and
  each read that returns pushes only one piece, a line or all that is buffered. Done is reached
  exactly if the reads keep up with the pieces (`BodyCompletesIff`, `CompletesIff`); without
  inner line ends, exactly if the last read brings nothing of the head (`OnePieceBodyIff`,
  `LastReadDecides`), and some cut stalls exactly the streams with at most 1022 bytes behind
  the head (`BodyDependsOnCutIff`). A request that arrives in one read stalls (`RequestStalls`).
* `Content-Length: 0` enters the body, and is done only when a byte that does not belong to it
  is pushed (`BodyCompletesIff`, with `Missing`).
* A request line comes back only for a URI without blanks, and never for version WS
  (`RequestLineIff`).
* The 32-bit body counter wraps for announced lengths above 2^32 - 1024
  (`BodyCounterExactIff`).
* A printed header comes back only under the conditions of `EntryOk`; `WS` does not survive
  printing and parsing (`VersionRoundTrip`).
* A dot in a route pattern matches any character (`CompiledGlobMatchesIff`), and `*` does not
  cross a line end (`CompiledGlobMatchesAnyUriIff`).
* Emptying a ring whose write position stands behind the end makes every slot count as unread
  (`PopoutDropsIff`).
* Server frames from 65535 octets on are not read back (`ServerFrameRoundTripIff`), and at
  65535 the header is not the shortest (`ShortestFormIff`). The built server takes client
  frames whole up to 1016 octets of payload (`FrameInOneReadIff`); its decoder alone would read
  those up to 65535, and few longer ones (`ClientFrameRoundTripIff`).
* A ping or pong between fragments wipes out what was collected (`ReassemblyIff`), and the
  handler of a fragmented message is not told its type (`TypeToldIff`).
* A handler may close its own connection although src/hpl_connection.h:22-23 warns that it
  would be closed twice: that happens exactly if it answers -1 (`OwnCloseIff`). What else makes
  Poll use a destroyed object is stated exactly in `PollIsSafeIff`.
* A broadcast above 65532 octets does not fit a pipe and arrives cut (`ChunkDecodesIff`).

## Model

| member | source | states |
|---|---|---|
| Str.IcaseCmpIsPrefixTestIff | src/hpl_str.h:10-17 | icase_cmp is symmetric; it is the case-insensitive prefix test exactly unless the first text is a proper prefix of the second |
| Str.IcaseCmpOnLine | src/hpl_str.h:10-17 | on a text that still ends in its line feed, compared with a word without one, icase_cmp is the prefix test |
| Str.NextChar | src/hpl_header_parser.cc:41-50 | the scan stops at the first position from the offset on that meets the predicate, or at the end |
| Str.SameLetterIff | src/hpl_str.h:10-17 | tolower makes two characters equal exactly if they are equal or the small and the capital form of one letter |
| Http.VersionRoundTrip | src/hpl_version.cc:33-57 | a printed version is read back, whatever follows, except WS unless "S/" happens to follow |
| Http.MethodReadIff | src/hpl_method.cc:6-26 | GET, PUT and POST are read exactly where the line begins with them, and no other method is |
| Http.VersionReadIff | src/hpl_version.cc:11-42 | each version is read exactly where the text begins with HTTP/1.0, HTTP/1.1, HTTP/2.0 or WSS/ |
| HeaderParser.HttpHeaderParser.ScanUpgrade | src/hpl_header_parser.cc:62-81 | the Upgrade loop terminates and raises the flag exactly when "websocket" is found at some later position, although it jumps to the next comma on a hit |
| HeaderParser.HttpHeaderParser.ScanConnection | src/hpl_header_parser.cc:90-127 | the Connection loop terminates on recognised input and adds exactly the flags of its tokens |
| RequestLaws.RequestLineIff | src/hpl_header_parser.cc:163-178 | method, URI and version of a GET, PUT or POST line come back from the first line exactly if the URI is not empty and holds no blank and the version is not WS |
| RequestLaws.NoKnownMethod | src/hpl_header_parser.cc:163-169 | a first line that begins with no known method leaves method, URI and version unknown |
| RequestLaws.NoSecondBlank | src/hpl_header_parser.cc:171-177 | without a second blank the rest of the line with its CR LF becomes the URI, and the version is unknown |
| RequestLaws.RequestRoundTrip | src/hpl_header_parser.cc:20-161 | splitting and pushing a whole request, with Host and User-Agent lines anywhere among its headers, gives back the specified parser and leaves exactly the body |
| RequestLaws.RequestReadIs | src/hpl_header_parser.cc:82-149 | that parser holds method, URI, version, the map of the other headers, the last Host and User-Agent values and the announced length |
| HeaderParser.HttpHeaderParser.PushLine | src/hpl_header_parser.cc:20-161 | one line takes the four-state parser to exactly the specified state, in every branch |
| FieldLaws.HostLine | src/hpl_header_parser.cc:82-89 | a line called Host in any case sets the host to its value, without the blanks in front and up to the CR or LF, and nothing else |
| FieldLaws.UserAgentLine | src/hpl_header_parser.cc:128-136 | a line called User-Agent does the same for the user agent |
| FieldLaws.ContentLengthLine | src/hpl_header_parser.cc:55-61 | a line called Content-Length sets the announced length to its number, saturated and cut to 32 bits |
| FieldLaws.FirstValueStays | src/hpl_header_parser.cc:137-149 | a header that is given again changes nothing |
| FieldLaws.NoColonLine | src/hpl_header_parser.cc:138-142 | a header line without a colon changes nothing |
| HeaderParserLaws.UpgradeLine | src/hpl_header_parser.cc:62-81 | on a CRLF-terminated, NUL-free Upgrade line the flag is raised exactly when "websocket" occurs, in any case, behind the character that follows the colon; nothing else changes |
| HeaderParserLaws.ConnectionLoopTerminatesIff | src/hpl_header_parser.cc:96-126 | running the loop round by round, it is left after some number of rounds exactly when the flags are defined |
| HeaderParserLaws.ConnectionValue | src/hpl_header_parser.cc:91-127 | the flags are defined exactly when every comma-separated part starts, after blanks, with a known token in any case, and are then the union of the named flags |
| HeaderParserLaws.ConnectionLine | src/hpl_header_parser.cc:90-127 | pushing a whole Connection line adds exactly the flags whose words upgrade, keep-alive and close begin some part, or never returns if some part begins with none of them |
| HeaderParserLaws.BodyCounterExactIff | src/hpl_header_parser.cc:151-158 | Done comes exactly when the true count reaches the announced length, for all pieces up to 1024 bytes, if and only if the length is at most 2^32 - 1024 |
| Connection.Connection.PopLine | src/hpl_connection.cc:27-49 | cuts the buffer behind its first CR LF, or leaves it alone if there is none |
| Connection.Connection.Read | src/hpl_connection.cc:54-84 | asks for what the bounded buffer has room for and appends what comes; -1 exactly on a failure, the end of the stream or no room, 0 if the read would block, 1 otherwise |
| Connection.Connection.NextText | src/hpl_connection.cc:132-147 | the next text to push: a line or, in the body only, up to 1024 buffered bytes |
| Connection.Connection.ProcessDataIn | src/hpl_connection.cc:113-159 | terminates for every script of reads and keeps the buffer within 1024 bytes; 1 means Done, 0 Body and -1 that the head is incomplete; -2 comes exactly if the last read failed, ended the stream or had no room |
| ConnectionLaws.HeadOfStream | src/hpl_connection.cc:113-159 | for every error-free script, the calls up to the end of the head leave the parser that splitting the whole stream into lines leaves, having consumed exactly the head; they close the connection instead exactly when a line does not fit 1024 bytes |
| ConnectionLaws.ChunkIndependence | src/hpl_connection.cc:113-159 | two ways of cutting one stream give the same result, parser and remaining bytes |
| ConnectionLaws.Conservation | src/hpl_connection.cc:54-84 | after any number of calls on any script, the bytes read are the texts pushed followed by the buffer, the parser is the fold of the pushes, and the body length counts the bytes pushed in state Body |
| ConnectionLaws.BodyCall | src/hpl_connection.cc:131-154 | one call in the body pushes exactly one piece of 1 to 1024 bytes and leaves room to read, or changes nothing when the kernel has nothing; a piece that is a line is not kept for the handler |
| ConnectionLaws.NoStarvation | src/hpl_connection.cc:54-69 | if every line fits, then on every error-free script from the opened connection on, each call before Done finds room for at least one byte and does not close the connection |
| ConnectionLaws.StalledBody | src/hpl_connection.cc:124-129 | with nothing left to read, no number of further calls looks at a buffered body |
| ConnectionLaws.BodyOvershoot | src/hpl_header_parser.cc:151-158 | over every run in the body: fewer than n bytes counted until Done, then at least n and at most n + 1023 |
| ConnectionLaws.BodyInPieces | src/hpl_connection.cc:131-154 | the case of `BodyLaws.BodyCompletesIff` with an empty buffer and one piece in each read: Done comes with exactly as many calls as reads, and not before |
| BodyLaws.DoneWithLastByte | src/hpl_header_parser.cc:151-158 | after any number of calls on any error-free script, whatever comes behind the body, the state is Body with all bytes counted until the missing ones are pushed, and Done exactly from then on |
| BodyLaws.LeftIff | src/hpl_connection.cc:131-154 | reads that push one piece each leave no more than some bytes behind exactly if, for every number of last reads, the pieces that must go are no more than the reads, and so for all pieces and all reads |
| BodyLaws.BodyCompletesIff | src/hpl_connection.cc:113-159 | for every error-free script and every body with any line ends, part of it buffered or not, with anything or nothing behind it, Done is reached exactly if enough bytes come and the reads keep up with the pieces that hold them; an announced length of 0 takes one byte |
| BodyLaws.OnePieceBodyIff | src/hpl_connection.cc:124-154 | a body of any length without inner line ends, whatever comes behind it, completes exactly if some read can still return |
| BodyLaws.SmallBodyIff | src/hpl_connection.cc:113-159 | if all that is ahead fits the buffer the condition is one on the script alone |
| CutLaws.CompletesIff | src/hpl_connection.cc:113-159 | of any stream whose head announces a body, whatever its lines and its cut, Done is reached from the opened connection exactly if the reads behind the head bring the body in time |
| CutLaws.LastReadDecides | src/hpl_connection.cc:113-159 | if the body is one piece, such a stream completes exactly if its last read, when taken whole, brings nothing of the head |
| CutLaws.CutBehindHeadIff | src/hpl_connection.cc:131-154 | cut behind its head, in whatever reads head and body come, it completes exactly if the reads of the body bring it in time |
| CutLaws.StallsInOneRead | src/hpl_connection.cc:124-129 | delivered in one read, no such stream ever completes |
| CutLaws.SomeCutCompletes | src/hpl_connection.cc:113-159 | every such stream that holds its whole body has a cut that completes |
| CutLaws.BodyDependsOnCutIff | src/hpl_connection.cc:113-159 | a stream whose body is one piece stalls in some cut exactly if at most 1022 bytes follow its head |
| ResponseLaws.NormalStatusIff | src/hpl_response.h:78-83 | a code is printed as itself exactly for 100 to 103, 200 to 208, 300 to 308, 400 to 412 and 500 to 511, and as 500 otherwise |
| ResponseLaws.StatusLineTells | src/hpl_response.h:85-88 | the second word of the status line is the decimal number of that code |
| ResponseLaws.HandshakeText | src/hpl_server.cc:201-207 | the answer to a WebSocket handshake, to the letter |
| Response.MakeResponse | src/hpl_response.h:73-100 | the printed text: status line, one line per header, content length and body |
| ResponseLaws.AtoiInvertsDecimal | src/hpl_header_parser.cc:55-61 | atoi into an unsigned reads back every printed number below 2^32, and cuts larger ones down |
| ResponseLaws.AtoiOfNegative | src/hpl_header_parser.cc:55-61 | and wraps negative ones around |
| ResponseLaws.ParsedHeader | src/hpl_header_parser.cc:137-149 | a printed header line is stored as exactly that name and value |
| ResponseLaws.ResponseRoundTrip | src/hpl_response.h:73-100 | splitting and pushing a printed response rebuilds exactly its map, announces exactly the body's size and leaves exactly the body |
| ResponseLaws.HeadersRoundTripIff | src/hpl_header_parser.cc:52-149 | the map comes back exactly when no name holds a colon or CR LF or is reserved, and no value starts with a blank or holds a CR or LF |
| EndToEnd.ResponseInAnyCut | src/hpl_connection.cc:113-159 | however a response is cut into reads, the pipeline rebuilds its map and leaves its body ahead, unless a line does not fit |
| EndToEnd.RequestInAnyCut | src/hpl_connection.cc:113-159 | however a request is cut into reads, the pipeline gives back its method, URI, version, map, host, user agent and length and leaves its body ahead, unless a line does not fit |
| EndToEnd.ReadRequest | src/hpl_connection.cc:109-123 | calling ProcessDataIn on a request, in any cut, ends with 1 exactly if it has no body, 0 if it has one, and -2 if a line does not fit |
| UpgradeLaws.HeadInAnyCut | src/hpl_connection.cc:113-159 | however a stream is cut, the parser behind its head is that of its lines |
| UpgradeLaws.UpgradesIff | src/hpl_connection.cc:180-195 | a routed request makes its connection a WebSocket exactly if its first line names HTTP/1.0 or HTTP/1.1, an Upgrade line mentions websocket and a part of a Connection line names upgrade |
| UpgradeLaws.UpgradeNeedsKey | src/hpl_connection.cc:90-105 | such a request is handled exactly if a key comes under one of the three names |
| UpgradeLaws.OthersArePlain | src/hpl_server.cc:216-231 | every other routed request goes to the HTTP handler, which decides whether the connection stays |
| EndToEnd.RequestCompletesIff | src/hpl_connection.cc:113-159 | a GET, PUT or POST request with a body completes, in any cut, exactly if the reads behind its head bring its body in time |
| EndToEnd.RequestStalls | src/hpl_connection.cc:124-129 | a request with a body that arrives in one read has its head parsed and its whole body buffered, and never completes |
| EndToEnd.RequestKeepsConnection | src/hpl_server.cc:220-231 | the connection of such a request lives on as long as its handler does not answer -1, so that further calls happen |
| EndToEnd.ResponseCompletesIff | src/hpl_connection.cc:113-159 | a printed response with a body completes, in any cut, exactly if the reads behind its head bring its body in time |
| Router.CompileGlob | src/hpl_server.cc:304-312 | the inserting loop terminates and turns each `*` into `.*` |
| Router.RouteTable.RegisterRequestHandler | src/hpl_server.cc:302-315 | the handler is stored under the compiled pattern |
| Router.RouteTable.FindRequestHandler | src/hpl_server.cc:317-330 | the first entry in key order that matches, or the end if none does |
| RouterLaws.StarsFollowDots | src/hpl_server.cc:306-312 | every `*` of a compiled pattern follows a `.` |
| RouterLaws.GlobToRegexInjective | src/hpl_server.cc:304-313 | distinct patterns never share a key |
| RouterLaws.CompiledGlobMatchesIff | src/hpl_server.cc:302-315 | the compiled regex matches exactly the one-line URIs the glob matches, if and only if the pattern holds no dot |
| RouterLaws.CompiledGlobMatchesAnyUriIff | src/hpl_server.cc:323-324 | without dots, they agree on all URIs if and only if the pattern holds no `*` |
| RouterLaws.RegistrationOrderIrrelevant | src/hpl_server.cc:302-330 | any permutation of distinct registrations gives the same table and the same answer for every URI |
| RouterLaws.FindIsLeast | src/hpl_server.cc:321-329 | the answer is the matching key that is a prefix of, or has the smaller character at the first difference from, every other one, and none exactly if no key matches |
| RouterLaws.LessIff | src/hpl_server.h:33 | the order of the keys is the lexicographic one |
| CircularBuffer.CircularBuffer.ContinuousWriteBuffer | src/hpl_circular_buffer.h:55-62 | the span starts at the write position and stays in bounds |
| CircularBuffer.CircularBuffer.GetReadViews | src/hpl_circular_buffer.h:103-112 | the two views, one behind the other, are the contents |
| CircularBuffer.CircularBuffer.ResetWritePos | src/hpl_circular_buffer.h:90-100 | the new write position, in the arithmetic of a 64-bit size_t and without wrapping around the ring |
| CircularBuffer.CircularBuffer.PopoutBytes | src/hpl_circular_buffer.h:114-120 | moves the read position around the ring, or refuses |
| CircularBuffer.CircularBuffer.Extend | src/hpl_circular_buffer.h:64-87 | a larger array with the same contents at its front, or nothing changed |
| CircularBuffer.CircularBuffer.GetLength | src/hpl_circular_buffer.h:123-132 | the size of the contents |
| CircularBuffer.CircularBuffer.GetFreeSpace | src/hpl_circular_buffer.h:88 | contents and free space together are the capacity, one less than the ring |
| CircularBuffer.CircularBuffer.FillSpan | src/hpl_circular_buffer.h:55-100 | one client round: fill the span, advance, wrap on reaching the end |
| CircularBufferLaws.SpanIsFree | src/hpl_circular_buffer.h:55-62 | the span is in bounds, holds no unread byte and is at most the free space |
| CircularBufferLaws.FillAppends | src/hpl_circular_buffer.h:92-100 | a client round appends to the contents |
| CircularBufferLaws.TwoRoundsFill | src/hpl_circular_buffer.h:55-62 | from any state two rounds add exactly the free space |
| CircularBufferLaws.PopoutDropsIff | src/hpl_circular_buffer.h:114-120 | reading drops a prefix exactly unless it empties a ring that was not wrapped |
| CircularBufferLaws.RingRefinesQueue | src/hpl_circular_buffer.h:53-132 | over every run that follows the protocol, all answers and the contents are those of a plain queue |
| WebsocketUtils.MakeWebsocketHeader | src/hpl_websocket_utils.cc:4-27 | the header octets, with one stale octet in the long form |
| WebsocketConnection.WebsocketConnection.Unmask | src/hpl_websocket_connection.cc:78-86 | the XOR loop replaces exactly the payload by its masked form |
| WebsocketLaws.MaskRotates | src/hpl_websocket_connection.cc:83-86 | that form is XOR with the key, octet by octet and over and over |
| WebsocketLaws.HelloUnmasked | src/hpl_websocket_utils.cc:4-27 | the unmasked example of section 5.7 of RFC 6455 is what the server writes |
| WebsocketLaws.HelloFromClient | src/hpl_websocket_connection.cc:53-87 | the masked example of section 5.7 of RFC 6455 decodes to its text |
| WebsocketConnection.WebsocketConnection.DecodeInPlace | src/hpl_websocket_connection.cc:53-87 | decodes the frame at the start of the buffer and changes nothing but the payload |
| WebsocketConnection.WebsocketConnection.Read | src/hpl_websocket_connection.cc:41-120 | session and result behind one frame: close, ping, pong, final or fragment |
| WebsocketConnection.WebsocketConnection.Write | src/hpl_websocket_connection.cc:122-131 | header and data are appended to what was sent |
| WebsocketLaws.ServerFrameRoundTripIff | src/hpl_websocket_utils.cc:4-27 | a server frame decodes to its type and payload exactly below 65535 octets |
| WebsocketLaws.ShortestFormIff | src/hpl_websocket_utils.cc:10-24 | among all unmasked headers that are read as the length none is shorter than the one written, which is read so itself, exactly for lengths below 65535; at 65535 the 16-bit form would do |
| WebsocketLaws.LongHeaderIsCut | src/hpl_websocket_utils.cc:19-25 | from 65535 octets on the first five octets of the header are those of the 64-bit form, and then one stale octet follows |
| WebsocketLaws.ClientFrameRoundTripIff | src/hpl_websocket_connection.cc:67-87 | for any key the decoder reads a masked client frame back exactly if its length fits 16 bits or survives swapping the halves of the 64-bit form |
| WebsocketLaws.FrameInOneReadIff | src/hpl_connection.cc:56-65 | one read of the built server takes a client frame whole, and it decodes to itself, exactly up to 1016 octets of payload |
| WebsocketLaws.DecodePrefix | src/hpl_websocket_connection.cc:53-87 | octets behind the frame do not matter |
| WebsocketRuns.GroupsPartition | src/hpl_websocket_connection.cc:109-119 | the reference groups make up the data frames, and only the last frame of each is final |
| WebsocketRuns.GroupingUnique | src/hpl_websocket_connection.cc:109-119 | there is only one such grouping |
| WebsocketRuns.ReassemblyIff | src/hpl_websocket_connection.cc:87-119 | over every run the handler gets exactly the joined groups and the rest is pending, if and only if pings and pongs come while nothing is pending |
| WebsocketRuns.PingsAnswered | src/hpl_websocket_connection.cc:94-100 | everything a session without a close has written decodes to one pong per ping, in order, with its payload, and nothing else |
| WebsocketRuns.CloseIsSilent | src/hpl_websocket_connection.cc:89-92 | a close frame is neither answered nor handed on |
| WebsocketRuns.TypeToldIff | src/hpl_websocket_connection.cc:109-114 | over every run there is one delivery per message, and its handler is told the message's type exactly if it came in one frame |
| WebsocketRuns.WireCarriesFrames | src/hpl_websocket_connection.cc:41-120 | masked frames that each fit the one read of 1024 bytes act as the frames themselves, whatever the keys |
| BroadcastGroup.BroadcastGroup.Join | src/hpl_broadcast_group.cc:47-74 | a member more, with an empty pipe of its own |
| BroadcastGroup.BroadcastGroup.Leave | src/hpl_broadcast_group.cc:76-87 | the first membership of the connection is gone |
| BroadcastGroup.BroadcastGroup.Broadcast | src/hpl_broadcast_group.cc:89-126 | every socket gains the frame, as far as a pipe holds it, once per membership; nothing else changes and all pipes are empty again |
| BroadcastLaws.WithoutIs | src/hpl_broadcast_group.cc:76-87 | leaving takes the first membership away and keeps the others in order |
| BroadcastLaws.RunGroup | src/hpl_broadcast_group.cc:47-126 | running a group through any joins, leaves and broadcasts gives every socket its stream and the group its members, and leaves all pipes empty |
| BroadcastLaws.BroadcastRefinesDirectIff | src/hpl_broadcast_group.cc:89-126 | over every run of joins, leaves and broadcasts that stream is what writing each frame to each member in turn would send, if and only if the frames sent to the socket fit a pipe |
| BroadcastLaws.ChunkDecodesIff | src/hpl_broadcast_group.cc:100-122 | a member can decode a broadcast exactly up to 65532 octets |
| BroadcastLaws.ChunkIsFront | src/hpl_broadcast_group.cc:100-122 | of a longer frame the first 65536 octets arrive |
| BroadcastLaws.MembersDecodeBroadcasts | src/hpl_broadcast_group.cc:47-126 | what a socket receives decodes to exactly the broadcasts made while it was a member, in order |
| Base64.Base64Encode | src/external_helpers.h:4-49 | both results: the text with its NUL and nothing else written, or the length that is needed |
| Base64.WriteLetters | src/external_helpers.h:25-38 | the loop writes exactly the unpadded letters |
| Base64Laws.Base64RoundTrip | src/external_helpers.h:25-42 | an independent decoder recovers every input |
| Base64Laws.OnlyEncodingsDecode | src/external_helpers.h:25-42 | and accepts nothing but encodings |
| Base64Laws.EncodedShape | src/external_helpers.h:12-15 | four letters for every three bytes begun, with the right padding |
| Base64Laws.EncodeWithRetry | src/external_helpers.h:11-22 | calling again with the returned length succeeds |
| Base64Laws.AcceptKeyShape | src/hpl_websocket_connection.cc:30-33 | a 20-byte digest gives 28 letters, which fit the 40 bytes offered |
| Server.Server.CloseConn | src/hpl_server.cc:280-300 | an existing connection leaves epoll and the pending list, or nothing happens and the answer is -1 |
| Server.Server.Poll | src/hpl_server.cc:122-253 | a batch is dispatched event by event as specified, wherever no destroyed or missing object is used; a failing registration of a new connection drops the rest |
| ServerLaws.PollIsSafeIff | src/hpl_server.cc:122-300 | Poll uses no destroyed or missing object exactly if no event and no handler names a connection destroyed by then, none is closed twice (also not by Poll behind a handler that answers -1), on_data_ and ws_connect_hook leave their own connection alone, every upgrade carries a key and every routed request a method of the handler table |
| ServerLaws.DispatchIff | src/hpl_server.cc:122-253 | behind an event exactly the connections it accepts and those it does not close exist |
| ServerLaws.OwnCloseIff | src/hpl_server.cc:222-231 | an HTTP handler may close its own connection exactly if it does not answer -1 |
| ServerLaws.TableInvariant | src/hpl_server.cc:122-300 | over every run: epoll watches the server and the pending connections once each, every connection upgrades at most once, and its readable events go to the WebSocket reader exactly from then on |

## Left out

- System calls, socket options, `setnonblocking` and `Init`: they appear only as scripts of results, queues and a registered set.
- SHA-1, OpenSSL and the hex dump of the digest: the digest is an arbitrary input of base64.
- `std::regex` beyond literals, `.` and a starred character: patterns with other metacharacters are not modelled.
- `icase_find`, the logger, error strings, the benchmark and the example programs.
- Ping timing through `steady_clock`: `ServerPing` writes a ping now and then and is not part of a session here.
- A WebSocket whose `on_data_` is empty, frames that do not arrive in one read of at most 1024 bytes, and further frames in the same read (they are dropped with the buffer, see `DecodePrefix`).
- Short writes to sockets, and `splice` into a socket that takes less than it is offered.
- `PopBody`: handing `partial_body_` over may or may not empty it.
- A `CircularBuffer` of size 0: the constructor's size is positive.
- A failing `pipe` or `setsockopt` in `BroadcastGroup`; pipe capacity is counted in bytes, not in pages.
- `CircularBuffer` moves and `malloc` failures other than in `Extend`.
- Server.Server.Poll: requires that the batch runs without using a destroyed or missing object, because the source runs into undefined behaviour otherwise; `PollIsSafeIff` says exactly when that is.
- Server.Server.CloseConn: requires a connection that exists, because its argument is dereferenced first.
- WebsocketConnection.WebsocketConnection.Read: requires one whole frame in the buffer, because the source reads past its end otherwise, also after a read that would have blocked and left it empty.
- HeaderParser.HttpHeaderParser.PushLine: requires that the line does not make the Connection loop spin, because a method cannot state that it never returns; `ConnectionLine` says when that is.
- `src/http_header_parser_test.cc` calls `GetBody`, which the parser does not define; it is not used as a specification.
