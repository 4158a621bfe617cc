# sockstr: a verified model

sockstr wraps TCP sockets in a C++ iostream. This project models the parts of it that carry state or
undo each other, and proves what they promise:

- the stream buffer and a connected socket as classes over two fixed arrays and two byte pipes
  (`Streams`), their meaning as functions on values (`SocketSpec`, `StreamBufSpec`), and what holds in
  every run of one stream (`StreamRuns`) and of a sender and a receiver joined by a pipe (`PipeRuns`);
- reading up to a delimiter (`DelimiterScan`), with the exact condition under which the scanner, which
  never looks at a byte twice, is a first-occurrence search;
- HTTP messages as text (`HttpText`) and over sockets (`HttpStreams`);
- IPC packets cut out of a byte stream (`Ipc`);
- opening, accepting and closing (`OpenCloseSpec`, `OpenClose`) and the ledger of descriptors, TLS
  contexts and worker threads over any number of sockets (`Ledger`), with the exact condition under which
  a trap can be reached;
- what asynchronous worker threads deliver, as interleaved steps over one connection after the other
  (`AsyncWorkers`), and what they send (`AsyncWrites`);
- URL encoding (`UrlEncoding`) and socket names (`Address`, with decimal numbers in `Decimal`).

A C++ `char` is a Dafny `char`; signedness and the eight-bit range are written out where they matter
(`Bytes`). What the kernel, the resolver and the TLS library answer is a parameter, so a statement for
all answers covers every behaviour of theirs. `recv` returns any non-empty prefix of what is there, and
`send` accepts everything or fails. The operations `sputc`, `sbumpc` and `sgetc`, through which a stream
buffer is used, are those of the C++ standard's `basic_streambuf`.

## What turned out differently from what one would expect

- Pushing back EOF works but reports EOF, as a failure does (`StreamBufSpec.UngetRestores`).
- A byte 0xFF at the start of a received chunk is reported as the end of input and lost
  (`PipeRuns.IntactIffNoChunkStartsFF`, `PipeRuns.IntactForEveryChunkingIff`).
- A worker thread looks up the state of its socket when it starts, not when it is created. Closing a socket
  in between calls a thread body that only asserts false (`Ledger.CloseBeforeStartTraps`); so does closing
  an asynchronous stream with unwritten bytes, because the close itself then starts a worker
  (`Ledger.UnflushedCloseTraps`). `Ledger.RunTrapsIffCareless` says exactly when a run is safe.
- A write that succeeds never resets the status, so after one failed write a flushed put area is kept and
  written again (`StreamRuns.StaleStatusDuplicates`). Bytes kept that way survive a close; the next open
  resets the status, and closing a listening or half-open socket then calls a write it does not have
  (`Ledger.LeftoverBytesTrap`, and the exact condition in `OpenCloseSpec.OpenCloseSafeIff`), while a new
  connection sends them to the new peer (`StreamRuns.ReopenSendsLeftover`).
- A successful open resets the status but not the iostream bits (`OpenCloseSpec.OpenCoherentIff`).
- An IPC packet whose header or body comes in two receives is lost (`Ipc.ReceivedIffUndivided`).
- The delimiter CRLF is missed behind an even number of CRs (`DelimiterScan.ExactIff`).
- The documentation of `open` asks for the port behind a colon, but behind `//` a port is taken as a part
  of the host (`Address.SchemeGivesPort`, `Address.PrintParseIff`); the model follows the code.
- The table of HTTP reason phrases is never filled, so the reason is always a space.
- A byte from 0x80 up is URL-encoded with eight digits, which a standard decoder does not undo
  (`UrlEncoding.PercentDecodeInvertsIff`).

## Model

| member | source | states |
|---|---|---|
| SocketSpec.ReadSocket | src/SocketState.cpp:841-903 | A read that returns bytes leaves SC_OK and no error bit; one that returns nothing leaves SC_NODATA and some bit, unless it started a worker; nothing else of the socket changes |
| SocketSpec.ReadReports | src/SocketState.cpp:841-903 | Exactly when a read delivers or starts a worker, and which one bit it adds otherwise: the bad bit when an asynchronous receive of waiting bytes fails, else the eof bit |
| SocketSpec.ModesAllow | src/SocketState.cpp:844-847 | Which open modes let a connected socket read and write |
| SocketSpec.WriteSocket | src/SocketState.cpp:1009-1045 | After a synchronous write the fail bit tells whether it failed, and no other bit changes; a failure leaves SC_FAILED, anything else leaves the status alone |
| SocketSpec.RecvCount | src/SocketState.cpp:925-945 | A receive takes no more than asked or present, and something whenever something is there and the call works |
| StreamBufSpec.PeekReports | src/StreamBuf.cpp:170-183 | A peek at an empty area reports EOF if and only if nothing is received or the first byte is 0xFF, otherwise that byte as a signed number, and it moves nothing |
| StreamBufSpec.RefillGetReports | src/StreamBuf.cpp:161-168 | A get from an empty area reports what the peek reports and moves on by one |
| StreamBufSpec.AreaReports | src/StreamBuf.cpp:161-183 | From a non-empty area both report the next byte unsigned without asking the kernel |
| StreamBufSpec.OverflowReports | src/StreamBuf.cpp:81-119 | A put writes only a full area of 256 bytes, and reports EOF if and only if that leaves a failed status |
| StreamBufSpec.OverflowConserves | src/StreamBuf.cpp:81-119 | Accepted bytes stay equal to written bytes plus put area, if and only if no full area is flushed successfully under a stale status |
| StreamBufSpec.SyncConserves | src/StreamBuf.cpp:137-158 | The same for sync, if and only if it neither discards nor flushes under a stale status; it returns 0 exactly when it has written a non-empty area |
| StreamBufSpec.PushAllStacks | src/StreamBuf.cpp:122-135 | Any number of pushed-back bytes lie reversed in front of the unchanged remainder |
| StreamBufSpec.PushbackIsLifo | src/StreamBuf.cpp:122-135 | Reading after pushing back gives the pushed bytes last in, first out, and then the old remainder |
| StreamBufSpec.UngetRestores | src/StreamBuf.cpp:122-135 | Pushing back EOF undoes the last get, and yet reports EOF |
| StreamBufSpec.PushbackSucceedsIff | src/StreamBuf.cpp:125-126 | Pushing back a byte succeeds exactly while the get pointer is off the start, and changes nothing otherwise |
| StreamRuns.AlwaysCoherent | src/SocketState.cpp:849-902 | In every run of buffered and raw operations and changes of mode from a coherent state an SC_OK status means no error bit, so a flush of pending bytes under SC_OK never discards them |
| StreamRuns.StepConserves | src/StreamBuf.cpp:81-158 | One buffered operation on a sound stream conserves the bytes even when it fails, and keeps the stream sound when it does not |
| StreamRuns.ExactlyOnce | src/StreamBuf.cpp:81-158 | Up to and including the first failed write or end-of-input read, accepted bytes are written once and in order or still in the put area; a flush then writes them all |
| StreamRuns.CloseWritesAll | src/SocketState.cpp:200-219 | Closing such a stream writes what is left before the descriptor is released and leaves the put area empty |
| StreamRuns.ReopenSendsLeftover | src/Socket.cpp:602 | After a reopen that connects, a flush writes the bytes left from the earlier connection ahead of those accepted since, so the new connection carries exactly the latter if and only if nothing was left |
| StreamRuns.StaleStatusDuplicates | src/SocketState.cpp:1033-1038 | A full area whose flush is refused and then accepted is written and yet kept |
| PipeRuns.AlwaysPrefix | src/StreamBuf.cpp:81-183 | For all 0xFF-free bytes and every interleaving of puts, flushes, gets and peeks with arbitrary chunks, what came out is a prefix of what went in |
| PipeRuns.GetsDrain | src/StreamBuf.cpp:161-183 | Enough gets drain a flushed pipeline completely, however the kernel cuts the bytes |
| PipeRuns.DrainedEqualsPut | src/StreamBuf.cpp:81-183 | After any run, a flush and a full drain, what came out equals what went in |
| PipeRuns.OneByteChunksLoseFF | src/StreamBuf.cpp:170-183 | One-byte chunks deliver exactly the bytes other than 0xFF |
| PipeRuns.IntactIffNoChunkStartsFF | src/StreamBuf.cpp:161-183 | Under any one chunking exactly the 0xFF at the head of a chunk is lost, so the bytes cross intact if and only if no chunk starts with 0xFF |
| PipeRuns.IntactForEveryChunkingIff | src/StreamBuf.cpp:161-183 | A byte sequence crosses intact under every chunking if and only if it has no 0xFF |
| Streams.Socket.RegisterCallback | src/Stream.cpp:116-120 | Installs the new callback and hands back the old one |
| Streams.Socket.Recv | src/SocketState.cpp:942 | Moves exactly the bytes it counts from the pipe to the given place in the buffer |
| Streams.Socket.Read | src/SocketState.cpp:841-903 | Every branch of the read against the value-level read; bytes move from pipe to buffer and nothing else changes |
| Streams.Socket.Write | src/SocketState.cpp:1009-1045 | Every branch of the write against the value-level write; accepted bytes are appended to the pipe |
| Streams.StreamBuf.constructor | src/StreamBuf.cpp:60-65 | Both areas start empty, the get pointer at the far end |
| Streams.StreamBuf.Overflow | src/StreamBuf.cpp:81-119 | The array code keeps the pointer order and does what the value-level overflow does; detached, it keeps only the last character |
| Streams.StreamBuf.Pbackfail | src/StreamBuf.cpp:122-135 | The array code keeps the pointer order and does what the value-level pushback does |
| Streams.StreamBuf.Sync | src/StreamBuf.cpp:137-158 | The array code keeps the pointer order and does what the value-level sync does |
| Streams.StreamBuf.Underflow | src/StreamBuf.cpp:170-183 | The array code keeps the pointer order and does what the value-level underflow does |
| Streams.StreamBuf.Uflow | src/StreamBuf.cpp:161-168 | The array code keeps the pointer order and does what the value-level uflow does |
| DelimiterScan.StopsAtDelimiter | src/Socket.cpp:645-671 | For every delimiter of two or more characters, a stop before the end of input is a stop right behind the delimiter |
| DelimiterScan.ScanIsFirstSeen | src/Socket.cpp:655-669 | On every input the scanner for CRLF or CRLFCRLF stops at the first one whose CR ends an odd run of CRs |
| DelimiterScan.ExactIff | src/Socket.cpp:655-669 | It equals a naive first-occurrence search if and only if that run is odd at the first occurrence, or the input ends there, or there is none |
| DelimiterScan.PairedIsExact | src/Socket.cpp:655-669 | On input whose CRs are followed by LF it is a first-occurrence search |
| DelimiterScan.UnpairedMisses | src/Socket.cpp:655-669 | The shortest input on which it is not |
| DelimiterScan.ReadUntil | src/Socket.cpp:628-642 | Returns exactly what it consumes: the shortest prefix that ends in the delimiter, or everything up to the end or to the receive that fails |
| DelimiterScan.MatchRest | src/Socket.cpp:659-667 | The inner loop ends as the match attempt ends, a receive that fails counting as the end, having consumed what it returns |
| DelimiterScan.ScanOn | src/Socket.cpp:656-668 | One turn of the outer loop consumes what it returns and goes on where the scanner goes on |
| DelimiterScan.ReadMulti | src/Socket.cpp:650-671 | Returns exactly what it consumes and stops where the scanner stops on what can be received |
| DelimiterScan.ReadDelimited | src/Socket.cpp:645-671 | The same for every delimiter, wherever a receive fails; the empty one returns all that can be received if and only if no 0xFF precedes its last byte |
| Decimal.AtoiReads | src/Socket.cpp:502 | `atoi` skips white space, takes a sign and stops behind the number |
| Decimal.AtoiOfDec | src/Socket.cpp:502 | Reading a printed number gives it back |
| HttpText.EntriesWellFormed | src/HttpStream.cpp:204-217 | On arbitrary text every key is a colon-free slice not starting with CR, LF or space, and every value the CR- and LF-free slice between its colon and the next newline |
| HttpText.EntriesOfLines | src/HttpStream.cpp:163-218 | Printed headers are parsed back in order, each value behind a space, whatever follows |
| HttpText.BodyIsIgnored | src/HttpStream.cpp:204-217 | A colon-free body behind text that ends in a newline leaves the parsed headers unchanged |
| HttpText.ToMapOfPairs | src/HttpStream.cpp:214-215 | The parsed map has exactly the printed keys |
| HttpText.SplitOfJoin | src/HttpStream.cpp:342-361 | Splitting undoes joining if and only if the last piece is not empty, and otherwise drops just that piece |
| HttpText.RequestRoundTrip | src/HttpStream.cpp:298-339 | A printed request and a payload without a header line, in a buffer of any size, parse to the verb, the URI and exactly the printed headers |
| HttpText.VerbIsNamed | src/HttpStream.cpp:321-326 | A line of three words means a verb if and only if it starts with that verb's name |
| HttpText.LineEnds | src/HttpStream.cpp:307-336 | The line ends at the first CR, LF or NUL, and the headers are looked for behind it in what was received |
| HttpText.BadLineIff | src/HttpStream.cpp:318-319 | A line is bad if and only if it does not consist of three words |
| HttpText.RequestLine | src/HttpStream.cpp:72-134 | Every request starts with its verb's name, the URI and HTTP/1.1 on a line of its own |
| HttpText.RequestHeadIsRead | src/HttpStream.cpp:163-173 | Reading to the first blank line takes exactly the head of a request, whatever the payload |
| HttpText.HeadIsUnderstood | src/HttpHelpers.cpp:186-190 | A response head starts with HTTP/1.1 and the given status, readable by `atoi`, and its headers parse back |
| HttpText.HeadIsRead | src/HttpStream.cpp:77 | Reading to the blank line takes exactly a response's status line and headers, whatever the body |
| HttpText.BodyIsReadIff | src/HttpStream.cpp:79 | Reading to CRLF takes the whole body if and only if every CRLF with an odd run of CRs is at its end |
| HttpText.ResponseRoundTrip | src/HttpStream.cpp:279-296 | A client that reads a printed response gets exactly its head, and its body if that is CR-free text and one CRLF, whatever comes later |
| HttpText.ContentIsBodyIff | src/HttpStream.cpp:72-82 | The content equals the rest of the connection if and only if no CRLF with an odd run of CRs comes before its end |
| HttpStreams.HttpStream.AddHeader | src/HttpStream.cpp:143-148 | The header is set, replacing an earlier one of that name |
| HttpStreams.HttpStream.ExpandHeaders | src/HttpStream.cpp:163-173 | Appends one line per header in the order of iteration, and the blank line |
| HttpStreams.HttpStream.ParseHeaders | src/HttpStream.cpp:189-218 | The cursor loop ends on every text and yields the map of the text's header entries |
| HttpStreams.EntriesFrom | src/HttpStream.cpp:207-216 | One turn of the loop finds the next entry and moves the cursor strictly forward |
| HttpStreams.HttpStream.Split | src/HttpStream.cpp:342-352 | The getline loop yields the pieces of the text |
| HttpStreams.HttpStream.SendRequest | src/HttpStream.cpp:84-134 | Writes the request head and then the payload |
| HttpStreams.HttpStream.Get | src/HttpStream.cpp:72-82 | Returns the head and the content taken by the two delimiter reads, either of which a failing receive may cut short; the count is the number of bytes consumed |
| HttpStreams.HttpStream.ParseMessage | src/HttpStream.cpp:307-338 | Parses the buffer as the text-level parse does, keeps the old headers when the line is bad, and gives verb and URI even when the line ends beyond the bytes received |
| HttpStreams.HttpStream.Request | src/HttpStream.cpp:298-339 | Parses what one read puts into the buffer; a buffer below 17 bytes reads nothing |
| HttpStreams.HttpStream.Response | src/HttpStream.cpp:279-296 | Sets the content headers and writes the response head and then the body |
| HttpStreams.ResponseIsUnderstood | src/HttpStream.cpp:279-296 | From the head a client takes it learns the status, the length of the body behind it, the content type and every other header |
| Ipc.WordRoundTrip | include/sockstr/IPC.h:158-160 | A 32-bit word written in the header is read back |
| Ipc.LayoutIsMessage | include/sockstr/IPC.h:158-160 | Function, size and cookie in four bytes each and then the body make a message |
| Ipc.StampCarries | src/Socket.cpp:175 | A stamped packet agrees with the message at every byte outside the cookie field, which holds the cookie |
| Ipc.RemoteProcedure | src/Socket.cpp:168-186 | Fills in the next cookie and changes nothing else of the message, writes the packet, and leaves the caller's callback in place |
| Ipc.SendInTurn | src/Socket.cpp:168-186 | Calls one after the other put the messages, but for their cookies unchanged, back to back on the wire |
| Ipc.CookiesIncrease | src/Socket.cpp:175 | In every run the packets carry the messages with consecutive, increasing cookies |
| Ipc.BehindHeader | src/Socket.cpp:247-272 | The part of a turn behind a whole header drops, gives up or completes as the framing says, on buffer and pipe |
| Ipc.RemoteReadData | src/Socket.cpp:220-277 | However the kernel cuts the bytes, ends with a packet, byte for byte, or with nothing, as the framing says, and the caller's callback is back on every way out |
| Ipc.ReceivedIffUndivided | src/Socket.cpp:232-272 | A message that has arrived whole is received if and only if it fits and its header and its body each come in one receive |
| Ipc.ReceivedIffFits | src/Socket.cpp:232-272 | From a kernel that hands over all it has, it is received if and only if it fits, and what follows stays in place |
| Ipc.OversizedDropsAll | src/Socket.cpp:247-260 | A message that does not fit is dropped with everything that has arrived behind it |
| Ipc.FailedBodyShrinksRoom | src/Socket.cpp:262-272 | After a body that could not be read only messages no longer than that body are received |
| Ipc.ManyRecovered | src/Socket.cpp:232-272 | Any run of fitting messages back to back comes out message by message |
| Ipc.FramingRoundTrip | src/Socket.cpp:168-277 | Any run of fitting messages sent back to back is received with the same boundaries and, outside the cookies, the same bytes |
| Ipc.ReusedStructureIff | src/Socket.cpp:224-228 | With a structure that is not refreshed, the second of two messages is received if and only if it is no longer than the first |
| OpenCloseSpec.OpenEnds | src/Socket.cpp:531-604 | On a closed and quiet socket an open traps exactly in the UDP case without address and modeCreate; after every open that does not trap, result, final state and status agree, and nothing left in the put area has been written |
| OpenCloseSpec.OpenLeads | src/Socket.cpp:532-604 | From address, flags and answers alone: when an open succeeds, and that it then ends connected by TLS for a peer on port 443, listening for any other TCP server, and connected otherwise |
| OpenCloseSpec.OpenSets | src/SocketState.cpp:698-699 | Every open that is not refused at once sets the mode as the flags ask and keeps the other flags and the callback |
| OpenCloseSpec.Initialize | src/Socket.cpp:133-140 | The open by name starts from a closed synchronous socket and keeps the error reports, flags, callback and areas |
| OpenCloseSpec.AcceptedObj | src/Socket.cpp:397-425 | An accepted socket is connected, with the listener's flags and mode, clean error reports and empty areas |
| OpenCloseSpec.CloseKeepsSettings | src/SocketState.cpp:199-219 | A close keeps mode, callback, flags and protocol, and the error reports unless its flush writes |
| OpenCloseSpec.FailedOpenKeepsHandleIff | src/SocketState.cpp:692-777 | A failed open leaves a descriptor in the socket if and only if it is a client open without TLS that was given one |
| OpenCloseSpec.OpenCoherentIff | src/Socket.cpp:602 | A successful open leaves status and error bits coherent if and only if no bit was set before |
| OpenCloseSpec.OpenCloseSafeIff | src/SocketState.cpp:199-219 | For every address that can be opened: opening a closed socket and closing it again is free of traps under all answers if and only if no unwritten bytes are left that a flush would write, or the open is refused at once |
| OpenCloseSpec.ServerReopenTrapsIff | src/SocketState.cpp:200-219 | Reopening as a server over a left-over put area and closing traps if and only if the area holds bytes and no error bit is set |
| OpenClose.CloseState | src/SocketState.cpp:199-219 | Flushes, then releases the descriptor and goes to the closed state |
| OpenClose.Close | src/Socket.cpp:344-351 | Dispatches to the state's close, a TLS connection freeing its context first |
| OpenClose.OpenServer | src/SocketState.cpp:573-670 | Every early exit and both successes of a server open, on socket and kernel tables |
| OpenClose.OpenClient | src/SocketState.cpp:692-777 | Every early exit and the success of a client open |
| OpenClose.OpenTLS | src/SocketStateTLS.cpp:126-215 | Every early exit and the success of a TLS open, with its context and descriptor |
| OpenClose.SelectState | src/Socket.cpp:532-557 | The state whose open is called, or the early failure |
| OpenClose.Open | src/Socket.cpp:531-604 | The whole open, with the final status |
| OpenClose.Listen | src/Socket.cpp:397-425 | The accepted socket is connected, takes over flags and mode, and owns the new descriptor; a failed accept leaves nothing |
| Ledger.SpawnsIff | src/SocketState.cpp:884-893 | Which operations on a connected socket start a worker thread |
| Ledger.EffectIsStreamStep | src/StreamBuf.cpp:81-183 | On a connected socket the ledger's operations are those of one stream alone |
| Ledger.ClosingKeepsShare | src/SocketStateTLS.cpp:277-282 | A close gives back exactly what the socket held and reaches no trap |
| Ledger.OpenServerShare | src/SocketState.cpp:573-670 | On every path of a server open that ends, the tables hold what the socket holds, and on a quiet socket every path ends |
| Ledger.OpenClientShare | src/SocketState.cpp:692-777 | Every path of a client open ends, and the tables then hold what the socket holds |
| Ledger.OpenTLSShare | src/SocketStateTLS.cpp:126-215 | On every path of a TLS open that ends the new context is freed once or held by the connected socket |
| Ledger.StepKeepsInv | src/Socket.cpp:344-604 | Every disciplined action of any socket or worker keeps the ledger of all, and only the next step of an exposed worker can trap |
| Ledger.ExposesIffCareless | src/SocketState.cpp:143-160 | While no worker is exposed every disciplined action comes to its end, and exposes one if and only if it closes a socket before a worker has started or destroys it before one has finished |
| Ledger.RunBalances | src/Socket.cpp:344-604 | In every disciplined run over any number of sockets and workers that does not trap, live descriptors are exactly the handles held, none is shared, and contexts not freed are those of TLS-connected sockets; a run without a careless action never traps |
| Ledger.RunTrapsIffCareless | src/SocketState.cpp:143-160 | A disciplined run can reach a trap if and only if some socket in it is closed before one of its workers has started, or destroyed before one has finished |
| Ledger.NothingLeaks | src/SocketState.cpp:199-219 | From the empty world: once every socket is closed no descriptor is live and every context has been freed exactly once, and a trap can be reached exactly in careless runs |
| Ledger.CloseBeforeStartTraps | src/SocketState.cpp:380-383 | After a read that starts a worker, closing and then starting traps; starting, closing and finishing does not |
| Ledger.UnflushedCloseTraps | src/SocketState.cpp:469-472 | The close of an asynchronous socket with unwritten bytes starts a worker that traps |
| Ledger.AsynchronousReached | src/Socket.cpp:156-158 | Such sockets come about by an open, the asynchronous mode and a registered callback |
| Ledger.OpenByNameBalancesIff | src/Socket.cpp:458-459 | Whenever the open by name comes to its end, the ledger balances if and only if the socket held no descriptor |
| Ledger.LeftoverBytesTrap | src/SocketState.cpp:444-447 | A run that reopens a socket with unwritten bytes and ends in a trap |
| AsyncWorkers.StepKeepsInv | src/SocketState.cpp:859-978 | Every step of the callers and workers, closing and opening again included, keeps every receive delivered or intact in its worker's buffer, every parameter block owned once, and reaches no trap |
| AsyncWorkers.DeliveredExactlyOnce | src/SocketState.cpp:143-150 | In every interleaving, also when the socket is closed after its workers have started, nothing is lost, garbled or delivered twice; once no worker is left each receive has been delivered exactly once and each parameter block freed exactly once |
| AsyncWorkers.ReadStartsWorkerIff | src/SocketState.cpp:884-893 | A read where nothing has arrived starts a worker for it if and only if mode and callback last set call for one |
| AsyncWorkers.WorkerReceives | src/SocketState.cpp:968-978 | A worker delivers the first bytes that arrive |
| AsyncWorkers.ClosedEndsWorkers | src/SocketState.cpp:960-978 | A worker that has started when the socket is closed receives, delivers and sends nothing more |
| AsyncWrites.WrittenOnce | src/SocketState.cpp:1009-1085 | In every disciplined run the bytes sent are those of the accepted write calls in order of acceptance, no call twice, each with the bytes it handed over, and none that a worker has yet to send |
| AsyncWrites.WorkerSends | src/SocketState.cpp:1067-1085 | An asynchronous write sends nothing by itself; its worker sends the bytes the call passed |
| AsyncWorkers.RearmAllowed | src/SocketState.cpp:975 | The buffer of a read may be handed to the next read from its callback on |
| AsyncWorkers.StartAfterCloseTraps | src/SocketState.cpp:380-383 | A worker that starts after the close calls the body that asserts false |
| AsyncWorkers.SharedBufferGarbles | src/SocketState.cpp:968-978 | Two readers on one buffer deliver the wrong bytes |
| UrlEncoding.EscapeForm | src/HttpHelpers.cpp:143-144 | An escaped byte is a percent sign and two digits below 0x80, and six f's and two digits from there up |
| UrlEncoding.CodeIsLiteralIff | src/HttpHelpers.cpp:132-144 | A byte stands for itself if and only if it is a letter, a digit or one of .-_~, and is otherwise a percent sign and hexadecimal digits |
| UrlEncoding.EncodedChars | src/HttpHelpers.cpp:132-152 | Every char of a code is a letter, a digit, one of .-_~ or a percent sign |
| UrlEncoding.UrlEncode | src/HttpHelpers.cpp:134-152 | The run-copying loop equals the concatenation of per-byte codes |
| UrlEncoding.EncodeConcat | src/HttpHelpers.cpp:134-152 | Encoding distributes over concatenation |
| UrlEncoding.OwnDecodeInverts | src/HttpHelpers.cpp:134-152 | A decoder undoes the encoding of every byte string |
| UrlEncoding.EncodeInjective | src/HttpHelpers.cpp:134-152 | The code is uniquely decodable on all byte strings |
| UrlEncoding.PercentDecodeInvertsIff | src/HttpHelpers.cpp:134-152 | The standard percent-decoder undoes it exactly on the 7-bit strings |
| UrlEncoding.ParameterInjective | src/HttpHelpers.cpp:127-130 | A printed parameter determines its name and value |
| Address.ParseName | src/Socket.cpp:458-528 | The parse by last and first colon, with its mixed offsets, means: one colon and no // gives host and port, more colons or // give a host, and a host without any colon is refused |
| Address.SlashesHideColon | src/Socket.cpp:491-492 | Behind // the two colon positions compared never coincide |
| Address.PrintParseIff | src/SocketAddr.cpp:324-330 | Parsing a printed address gives host and port back if and only if the host has neither colon nor // |
| Address.SchemeGivesPort | src/Socket.cpp:512-517 | http:// and https:// give ports 80 and 443 and take everything behind as the host |
| Address.HostAndService | src/Socket.cpp:502-527 | With one colon and no // the text behind it is the port, or a service if it reads as 0; only the hosts http and https then mean ports 80 and 443 |
| Address.NamedService | src/Socket.cpp:519-522 | A service that starts with a letter is looked up by name, on the host before the colon |
| Address.NoColonIsRefused | src/Socket.cpp:479-488 | Without a colon every non-empty host is refused |
| Address.HostBehindSlashes | src/Socket.cpp:504-517 | With a colon somewhere, all behind // is the host, and the port comes from the scheme or is 0 |
| Address.ManyColonsAreHost | src/Socket.cpp:504-508 | A name with two or more colons and neither scheme nor // is a host with port 0 |

## Left out

- HttpStreams.HttpStream.ParseMessage: claims nothing about the headers when the request line ends beyond the bytes received, where the source passes on a negative size and reads beyond the buffer.
- HttpStreams.HttpStream.ExpandHeaders: takes the order in which the map is iterated as a parameter; the round trips hold for every order, of which the sorted one of `std::map` is one.
- Address.ParseName: requires a non-empty name; for an empty one the source reads a variable it has not set.
- Ipc.RemoteReadData: has everything already arrived, so that the end of it ends the call; it claims nothing about the data when the size field is below the header size, where the source computes a wrapped-around length.
- Ipc.RemoteProcedure: requires the cookie counter to be below the largest `int`, where `++` is defined.
- DelimiterScan.ReadDelimited: is stated for blocking sockets.
- PipeRuns.AlwaysPrefix: has all writes succeed and a receiver in blocking mode; failing writes are the subject of `StreamRuns`.
- Ledger.RunBalances: requires at every open that nothing is left which a flush would write, or that the open is refused at once, beyond the discipline of listening and doing I/O only in the right state; `OpenCloseSpec.OpenCloseSafeIff` says why exactly that is needed.
- Ledger.StepKeepsInv: counts as traps the base-class bodies and the use of a destroyed socket; the assertions about the open mode are preconditions of the methods in `Streams`. A worker's two steps are its start, which picks the state, and the rest.
- AsyncWorkers.DeliveredExactlyOnce: a receive or send is one step; one that is blocked while the descriptor is closed counts as made after the close, where it fails. The callback of a writer is not a step of its own.
- OpenClose.Open: requires a closed socket, an address that can be opened, and that no flush can reach a write or the open is refused at once; outside of that the source can stop at a failed assertion.
- OpenClose.Listen: gives the accepted socket the stream protocol, which the source leaves unset.
- HttpStreams.HttpStream.Response: status codes and counts from 2^31 up are printed as they are, where the source would print a negative `int`.
- Decimal.AtoiOfDec: numbers are unbounded; `atoi` of a number beyond `int` is undefined in the source.
- StreamRuns.AlwaysCoherent: worker threads take no part in its runs, because they set neither status nor bits.
- Partial sends: the code does not recover from them.
- Byte order: `Ipc.U32` and `Ipc.Le32` assume the little-endian layout of a header word; the source sends the structure as it lies in memory.
- UDP data transfer, multicast membership, socket options, name resolution and service lookup: foreign calls; only their results matter to `open`.
- The TLS library itself and certificates: only contexts are counted.
- Buffered streams over an asynchronous socket with a callback: the worker keeps a pointer into an array that is reused at once.
- `Socket::operator=`, which aliases a descriptor, and `remoteWriteReply`, a plain write.
- `CompoundEncoder`, the host name and time stamp encoders, OAuth and `functionName`: encoder outputs are given strings here.
- `ThreadHandler`, the Windows branches, the examples and the build files.
