# A formal model of the webserv HTTP server

The model covers the deterministic, stateful part of the server: what it does with the bytes it
has read, the processes it has reaped and the clock it has looked at. Sockets, epoll, fork and
files appear only as the outcomes they deliver. A `string` stands for a byte string (one
character per byte); URI and Base64 work on `bv8`. `size_t` is a number up to `SIZE_MAX` with its
overflow guards and its wrap-around written out.

Code that changes objects step by step is modelled by classes and loops, each proved equal to a
specification function; the properties are then proved about those functions, over all inputs,
all splits of the input and all interleavings.

| file | part of the server |
|---|---|
| `StringOps`, `Letters` | the string helpers: find, trim, split, letter case, decimal and hexadecimal sizes, and what they mean character by character |
| `Incremental` | theory of parsers that consume a growing buffer move by move |
| `RequestBody`, `BodyParser`, `ChunkCoding` | the body decoder, its imperative form, the chunked coding (section 7.1 of RFC 9112) |
| `HttpRequest`, `RequestHead`, `RequestMachine`, `RequestAccepts`, `RequestTexts`, `RequestRefusals`, `RequestRuns`, `RequestCuts`, `RequestSplits`, `RequestParser` | request line, header block, the phase machine with the limits step, the byte strings it accepts, written requests, refusals and their status, runs over split input with the size checks, the classes |
| `CgiResponse`, `CgiProtocol`, `CgiManager`, `CgiRuns` | CGI output, the join of end of output and reaping, the registry of workers, runs of the registry |
| `Timeouts`, `Sessions`, `LogRotation` | timer index, session store, numbered log backups |
| `Paths`, `Uri`, `Base64` | path normalisation, percent-coding, Base64 |
| `Routing`, `CgiPath`, `VHost` | the three longest-prefix routers, script/PATH_INFO split, listen validation and virtual hosts |
| `YamlText`, `Yaml`, `YamlTree`, `YamlStacks`, `YamlAccept`, `YamlFits`, `YamlExamples` | the indentation parser for configuration files |

## Where the code departs from what one would expect

These are facts about the code, each with the exact condition:

- The line phase compares the whole receive buffer with the header limit, so a request larger than
  that limit is refused with 431 if it arrives at once and comes back if its request line arrives
  first (`RequestCuts.ArrivingAtOnceCanFail`). Which cuts are refused is known exactly
  (`RequestCuts.RequestComesBackExactly`), and apart from these checks segmentation never matters
  (`RequestSplits.SplitsAgreeExactly`).
- A CGI worker that writes the last byte of the request body after the program closed its output
  forgets that it was complete, and answers 500 (`CgiProtocol.ReplyExact`,
  `CgiProtocol.LateWriteAnswersError`). A read error after reaping loses the completion byte
  (`CgiProtocol.AnnouncedUnlessLost`, `CgiProtocol.BrokenReadIsSilent`).
- A CGI program killed for its timeout before it printed a header block is never answered: the end of
  its output turns the timeout into an error that nobody announces. The sweep of the server loop
  declares the worker finished again and again, but tells nobody either (`CgiProtocol.SilentTimeout`,
  `CgiProtocol.SilenceLasts`, `CgiProtocol.GivenUpExactly`).
- The process id of a CGI worker is free again once its process was reaped, long before the worker is
  removed. If a new program gets that id, removing or giving up the old worker takes the process entry
  of the new one, whose exit is then never noticed (`CgiManager.ReuseId`, `CgiManager.ReusedIdIsLost`).
- The worker of a CGI start that failed is never removed, because no client leads to it. As many
  failed starts as there are places refuse every later CGI request with 503
  (`CgiRuns.OperateAll`).
- A CGI reply whose lines end with LF is cut inside its body when the body contains an empty CR LF
  line (`CgiResponse.ReplyRoundTrip`).
- A creation with timeout 0 makes the cleanup forget every session created before it: once another
  session is created these stay when they are over, those with a positive timeout included
  (`Sessions.ZeroTimeoutLingers`, `Sessions.CleanupExactOverRuns`).
- `encodeURIComponent` followed by `decodeURIComponent` keeps reserved characters encoded
  (`Uri.ComponentSlashStays`).
- Script path and PATH_INFO give back the request path only if location and rest share exactly one
  slash (`CgiPath.SplitLosesNothing`, `CgiPath.SlashInserted`).
- The three routers disagree when no non-empty key starts the path and one of the fallback keys
  exists (`Routing.RoutersAgree`, `Routing.StarDisagrees`).
- Validation compares listen hosts with their port, the choice of a virtual host without it, so
  hosts written with a colon can pass validation and still depend on the order of servers
  (`VHost.ColonsDispute`).
- The configuration parser looks one raw line ahead. A more deeply indented comment turns a
  sibling into a child, and a blank line can lose everything read before it, both silently
  (`YamlExamples.CommentAdopts`, `YamlExamples.BlankLosesData`). Two blank lines can make it pop an
  empty stack (`YamlExamples.BlanksCrash`, `YamlStacks.UndefinedExactly`). A well nested file can be refused,
  because closing a level turns siblings that have children into plain values
  (`YamlExamples.WellNestedRefused`).

## Model

| member | source | states |
|---|---|---|
| StringOps.ParseSizeExact | src/Lib/StringOps/StringOps.cpp:220-264 | the digit-by-digit conversion succeeds exactly for non-empty digit strings whose value fits size_t, and returns that value |
| StringOps.StrToSize | src/Lib/StringOps/StringOps.cpp:220-264 | the loop with its overflow guard computes that conversion |
| Letters.SizeTextExactly | src/Lib/StringOps/StringOps.cpp:220-264 | a text is read as a number up to 18446744073709551615 if and only if it is that number's numeral, printed with 0123456789 or 0123456789abcdef, with zeros before it and hexadecimal letters in either case |
| Letters.LowerMeans | src/Lib/StringOps/StringOps.cpp:149-151 | capitals become the letter 32 codes above, every other character stays |
| Letters.NamesMeet | src/Http/Core/HttpRequest.cpp:72-78 | two names fall together if and only if they differ in letter case at most |
| StringOps.TrimPadded | src/Lib/StringOps/StringOps.cpp:121-137 | trimming removes padding of trimmed characters on both sides and nothing else |
| StringOps.TrimIndices | src/Lib/StringOps/StringOps.cpp:121-131 | the two index loops compute the trimmed string |
| StringOps.SplitTokens | src/Lib/StringOps/StringOps.cpp:174-186 | the find loop computes the split |
| StringOps.SplitJoin | src/Lib/StringOps/StringOps.cpp:174-186 | splitting a joined list of separator-free pieces gives the pieces back |
| StringOps.JoinSplit | src/Lib/StringOps/StringOps.cpp:174-186 | joining a split string gives the string back |
| Incremental.SegmentationIndependent | src/Http/Parser/RequestParser.cpp:102-127 | for any consuming parser whose moves are stable under later bytes, every split of the input ends in the state, verdict and (without failure) leftover of receiving it at once |
| Incremental.NothingIsLost | src/Http/Parser/RequestParser.cpp:102-127 | what was consumed followed by the leftover is what was received, over all receipts |
| Incremental.ReceiveAllKeeps | src/Http/Parser/RequestParser.cpp:102-127 | what every move keeps is kept by every run over every split |
| RequestBody.BodySegmentation | src/Http/Parser/RequestBodyParser.cpp:54-193 | any two splits of the same body bytes end with the same state, decoded body, error code and, without error, leftover, in identity and chunked mode |
| RequestBody.MovesStable | src/Http/Parser/RequestBodyParser.cpp:84-193 | bytes that arrive later never change a move that can already be made |
| RequestBody.MoveKeepsBound | src/Http/Parser/RequestBodyParser.cpp:84-173 | every move, also a failing one, keeps body plus announced bytes within the limit, and body plus remaining equal to Content-Length |
| RequestBody.BodyBoundOverRuns | src/Http/Parser/RequestBodyParser.cpp:84-173 | that bound holds after every run of the body phase, however the bytes are cut |
| BodyParser.RequestBodyParser.InitFromHeaders | src/Http/Parser/RequestBodyParser.cpp:25-52 | sets up identity or chunked decoding, or the error, as the framing headers demand |
| BodyParser.RequestBodyParser.ParseIdentity | src/Http/Parser/RequestBodyParser.cpp:84-106 | taking a block at once is the byte-by-byte run of the decoder |
| BodyParser.RequestBodyParser.ReadSize | src/Http/Parser/RequestBodyParser.cpp:124-159 | the size line with extension, overflow and limit checks performs the decoder's move |
| BodyParser.RequestBodyParser.ReadData | src/Http/Parser/RequestBodyParser.cpp:161-173 | the chunk data with its size_t sum performs the decoder's move |
| BodyParser.RequestBodyParser.ScanTrailers | src/Http/Parser/RequestBodyParser.cpp:175-190 | the trailer loop finds the end of the first empty line, or that there is none |
| BodyParser.RequestBodyParser.ParseChunked | src/Http/Parser/RequestBodyParser.cpp:108-193 | the chunked loop with its clock check ends as the run of moves does |
| BodyParser.RequestBodyParser.ParseBody | src/Http/Parser/RequestBodyParser.cpp:54-82 | one call consumes, stores and reports exactly what the run of moves determines |
| BodyParser.IdentityRun | src/Http/Parser/RequestBodyParser.cpp:84-106 | the run over a body of known length takes what there is, up to the length |
| ChunkCoding.DecodeEncode | src/Http/Parser/RequestBodyParser.cpp:108-193 | decoding any encoding (any hex spelling, extensions, trailers) completes with the concatenated chunks and consumes exactly the encoding, whatever follows |
| ChunkCoding.CompletedIsEncoding | src/Http/Parser/RequestBodyParser.cpp:108-193 | conversely, whatever the decoder completes on is such an encoding and the body grew by its payload |
| RequestHead.ParseRequestLine | src/Http/Parser/RequestLineParser.cpp:11-90 | the request fields and error code after a line without query decoding are those of the line's parts |
| RequestHead.ParseHeaderBlock | src/Http/Parser/RequestHeadParser.cpp:8-63 | the index loop over the block adds line after line up to the first error |
| RequestHead.ParseHeaderLine | src/Http/Parser/RequestHeadParser.cpp:8-63 | one line is cut at its first colon, trimmed, and refused if the name is there already |
| RequestHead.LineRoundTrip | src/Http/Parser/RequestLineParser.cpp:11-90 | a printed method, target and version come back |
| RequestHead.HeadRoundTrip | src/Http/Parser/RequestHeadParser.cpp:8-63 | printed header fields come back as the lower-cased map, whatever blanks surround the values |
| RequestHead.EndOfPrintedFields | src/Http/Parser/RequestParser.cpp:75-76 | the first empty line is found right behind the printed fields |
| RequestMachine.PhaseOnlyForward | src/Http/Parser/RequestParser.cpp:44-127 | in a run of moves the phases only move forward |
| RequestMachine.MachineStable | src/Http/Parser/RequestParser.cpp:44-127 | no move of line, headers, limits or body is changed by later bytes; the size checks, which later bytes can trip, are added by RequestRuns |
| RequestMachine.BodyPhaseIsBodyRun | src/Http/Parser/RequestParser.cpp:102-127 | in the body phase the machine runs exactly as the body decoder |
| RequestMachine.RequestRoundTrip | src/Http/Parser/RequestParser.cpp:44-127 | printing a request and running the moves gives back method, path, version, headers and body and consumes exactly the printed bytes; RequestCuts adds the size checks |
| RequestAccepts.FinishesExactly | src/Http/Parser/RequestParser.cpp:30-127 | the moves, whose size checks RequestCuts adds, finish on a buffer if and only if it begins with the text of a request: a line of three parts, a header block without early end, and a body as the headers announce it, within the limits |
| RequestAccepts.FinishedIsParts | src/Http/Parser/RequestParser.cpp:30-127 | whatever is finished on, exactly the text of such parts was taken, and method, path, version, headers and body are theirs |
| RequestAccepts.PartsAreRead | src/Http/Parser/RequestParser.cpp:30-127 | conversely such parts are always read off, whatever follows them, also with query strings, bare LF lines and blanks around names |
| RequestAccepts.HeaderBlockExactly | src/Http/Parser/RequestHeadParser.cpp:8-63 | for every block: it is accepted if and only if each line is empty or a field with a name and no name, in lower case and trimmed, comes twice; then the headers are those collected from the lines |
| RequestAccepts.CollectedMeans | src/Http/Parser/RequestHeadParser.cpp:8-63 | a name has a value in the collected headers exactly if some line carries it, and it is that line's |
| RequestTexts.WrittenRequestComesBack | src/Http/Parser/RequestParser.cpp:30-127 | a request written out character by character, its fields spelled in any letter case, with a Content-Length in decimal, chunks with hexadecimal sizes or no body, is read exactly, with its fields under their lower-case names, and what follows it is left |
| RequestRefusals.LineRefused | src/Http/Parser/RequestLineParser.cpp:11-90 | a line without two spaces is refused with 400, one with another version than 1.0 or 1.1 with 505 |
| RequestRefusals.HeadRefused | src/Middleware/SubPipeline/RequestLimits/RequestLimitsMiddleware.cpp:32-60 | behind a good line a complete header block is refused with 400 for its lines, 431 for its length, and 400, 413 or 501 for what its two framing headers say; otherwise only chunks can still be refused |
| RequestRefusals.SizeRefused | src/Http/Parser/RequestBodyParser.cpp:124-159 | a size line without a number is refused with 400, one beyond the limit with 413 |
| RequestRefusals.ChunkEndRefused | src/Http/Parser/RequestBodyParser.cpp:161-173 | chunk data without CR LF behind it is refused with 400 |
| RequestRefusals.ChunksAreRead | src/Http/Parser/RequestBodyParser.cpp:108-193 | good chunks before the refused one change nothing about that |
| RequestRefusals.LateRefused | src/Http/Parser/RequestBodyParser.cpp:108-122 | a chunked body is refused with 408 when the clock has run on too far in a call |
| RequestRefusals.InTime | src/Http/Parser/RequestBodyParser.cpp:54-82 | in time, without new bytes or without chunks, a call does nothing but run |
| RequestRuns.BoundOverRuns | src/Middleware/SubPipeline/RequestLimits/RequestLimitsMiddleware.cpp:32-60 | from the start of a request, over every run, the stored body stays within the limit that the limits step computed |
| RequestRuns.GuardedOrTripped | src/Http/Parser/RequestParser.cpp:38-83 | with the header size checks a run ends with 431 at a receipt that trips them, or exactly as without the checks |
| RequestSplits.SplitsAgreeExactly | src/Http/Parser/RequestParser.cpp:30-127 | for arbitrary bytes and with the size checks, two splits end alike if and only if neither trips, or both do and the end of the request line came before the tripping receipt in both of them or in neither |
| RequestSplits.TripPhase | src/Http/Parser/RequestParser.cpp:38-83 | a run that trips ends in the line phase exactly if the tripping receipt is the first or meets bytes without an end of line |
| RequestSplits.PhaseForwardOverRuns | src/Http/Parser/RequestParser.cpp:30-127 | over every sequence of receipts, tripping or not, the phases only move forward |
| RequestRuns.SmallNeverTrips | src/Http/Parser/RequestParser.cpp:38-83 | input that fits the header limit never trips, in any split |
| RequestCuts.RequestComesBackExactly | src/Http/Parser/RequestParser.cpp:30-127 | a printed request, with a body and following bytes of any size, cut anywhere, comes back with the following bytes left in the buffer if and only if no receipt shows more than the limit while the line is incomplete, nor more than the limit behind the line while the headers are; otherwise it ends with 431 |
| RequestCuts.ReceiptTrips | src/Http/Parser/RequestParser.cpp:38-83 | one receipt trips exactly if it shows too much, and otherwise leaves the connection where all bytes so far lead |
| RequestCuts.RequestRoundTripAnySplit | src/Http/Parser/RequestParser.cpp:30-127 | when everything received fits the limit every split gives the request back |
| RequestCuts.ArrivingAtOnceCanFail | src/Http/Parser/RequestParser.cpp:38-42 | a request above the limit whose line fits is refused in one piece and comes back when its line arrives first |
| RequestParser.RequestParser.ParseRequestLine | src/Http/Parser/RequestParser.cpp:30-66 | state, error code and remaining buffer after the line phase, including the size check and wrong-phase calls |
| RequestParser.RequestParser.ParseHeaders | src/Http/Parser/RequestParser.cpp:68-100 | state, error code and remaining buffer after the header phase |
| RequestParser.RequestParser.ParseBody | src/Http/Parser/RequestParser.cpp:102-127 | consumed bytes are erased unless the body fails, and completion moves the phase |
| RequestParser.Connection.ApplyLimits | src/Middleware/SubPipeline/RequestLimits/RequestLimitsMiddleware.cpp:32-60 | the effective body limit and the refusal of a longer Content-Length |
| RequestParser.Connection.Receive | src/Http/Parser/RequestParser.cpp:30-127 | one receipt leaves the connection in the state of the guarded machine |
| CgiResponse.CgiResponseParser.ParseResponse | src/Cgi/CgiResponseParser.cpp:14-40 | the fields after parsing are those of the reply: body, headers, status code, and whether a header block was found |
| CgiResponse.CgiResponseParser.ParseHeaders | src/Cgi/CgiResponseParser.cpp:58-125 | the loop collects status and headers line by line |
| CgiResponse.CgiResponseParser.ParseLine | src/Cgi/CgiResponseParser.cpp:62-124 | one line is cut at its first colon, name and value are trimmed, and stored as header or status |
| CgiResponse.ReplyRoundTrip | src/Cgi/CgiResponseParser.cpp:14-125 | printed headers, Status and body are read back, the last of a name counting, if and only if the lines end with CR LF or the body has no empty CR LF line |
| CgiResponse.PrintedReplyMeans | src/Cgi/CgiResponseParser.cpp:14-125 | of a printed reply: a header has a value exactly if a field carries it that is not named Status in any letter case, and it is the last such field's; the status is known exactly if some field is so named, and its code is that of the last one that is not blank, else 200 |
| CgiResponse.OutputSays | src/Cgi/CgiResponseParser.cpp:14-125 | every output with a header block, whatever its lines, says what its lines with a colon say |
| CgiResponse.PrintedStatusCode | src/Cgi/CgiResponseParser.cpp:103-110 | a number in decimal, behind blanks, a plus sign and zeros, is the code if it is one from 100 to 599, else the code is 500 |
| CgiResponse.OtherStatusCode | src/Cgi/CgiResponseParser.cpp:103-110 | any other text that is not blank gives 500 |
| CgiResponse.StatusNeedsHeaders | src/Cgi/CgiResponseParser.cpp:14-40 | a status is only ever known when a header block was found |
| CgiProtocol.SignalledOnce | src/Cgi/CgiWorker.cpp:293-361 | in every interleaving of reads, writes, end of output and reaping exactly one completion byte is written, by the later of end of output and reaping |
| CgiProtocol.ReplyExact | src/Cgi/CgiManager.cpp:314-343 | the reply is the one that output and exit status call for, in every interleaving, exactly unless the last body byte was written after the end of otherwise good output without a status of its own |
| CgiProtocol.LateWriteAnswersError | src/Cgi/CgiWorker.cpp:247-291 | an interleaving of regular events with good output and a clean exit that is answered with an error |
| CgiProtocol.BrokenReadIsSilent | src/Cgi/CgiWorker.cpp:293-320 | a run in which a finished worker is never announced |
| CgiProtocol.Confluent | src/Cgi/CgiWorker.cpp:247-361 | with the body delivered in time, any two interleavings with the same output and exit status give the same reply |
| CgiProtocol.AnnouncedUnlessLost | src/Cgi/CgiWorker.cpp:293-361 | in every history without timeouts, failing reads and writes included, a finished worker is announced exactly once unless a read broke after reaping |
| CgiProtocol.AnnouncedAlways | src/Cgi/CgiWorker.cpp:293-424 | over every history of events and timeout sweeps, a worker that has been announced is finished, and stays so |
| CgiProtocol.GivenUpExactly | src/Cgi/CgiManager.cpp:224-253 | over every history of events and further sweeps, a worker given up gets a completion byte exactly when its output ends, with a header block unless its process was reaped before; it is finished if and only if it was reaped before or its output has not derailed since the last sweep |
| CgiProtocol.SilenceLasts | src/Server/Server.cpp:79-108 | once its output derailed in silence, no later event or sweep announces it |
| CgiProtocol.SilentTimeout | src/Cgi/CgiManager.cpp:224-253 | a program killed for its timeout before it printed anything is never announced, in any continuation, although every sweep makes its worker finished again |
| CgiProtocol.GivenUpAnswer | src/Cgi/CgiManager.cpp:314-343 | a worker given up that is finished is answered with the gateway timeout, or as a failed program if its output derailed after its reaping and no sweep came since |
| CgiProtocol.LongestOutput | src/Cgi/CgiWorker.cpp:338-350 | output of 10485760 bytes is taken, one byte more breaks it |
| CgiProtocol.OneWrite | src/Cgi/CgiWorker.cpp:247-291 | one write takes what was accepted, at most 4096 bytes and at most what is left, and the last byte closes the pipe |
| CgiProtocol.FailingCalls | src/Cgi/CgiWorker.cpp:247-320 | a failing read or write closes its pipe and leaves the worker in error; a worker in error or given up writes no more |
| CgiProtocol.ErrorStays | src/Cgi/CgiManager.cpp:314-343 | whatever events follow, a worker in error stays so, and is answered by its own status or with 500 |
| CgiProtocol.LiveOnlyBefore | src/Cgi/CgiWorker.cpp:247-361 | no event brings a worker that was reaped, failed or given up back to running |
| CgiManager.CgiWorker.HandleRead | src/Cgi/CgiWorker.cpp:293-361 | every outcome of read takes the worker through the matching protocol step |
| CgiManager.CgiWorker.HandleWrite | src/Cgi/CgiWorker.cpp:247-291 | every outcome of write takes the worker through the matching protocol step |
| CgiManager.CallsThatFail | src/Cgi/CgiWorker.cpp:247-320 | the fields after a call that fails or would block |
| CgiManager.CgiWorker.Reap | src/Cgi/CgiManager.cpp:271-300 | the exit status is recorded, judged against the worker's state and headers, and signalled if output has ended |
| CgiManager.CgiManager.CreateWorker | src/Cgi/CgiManager.cpp:59-222 | at the maximum nothing is created; a failed start, with or without a process, leaves a worker without entries; otherwise the worker and its two entries are added; no entry dangles; every started worker is still found by its client exactly unless the client had one already, and every live one by its process exactly unless the new process has the id of a live one |
| CgiManager.CgiManager.RemoveWorker | src/Cgi/CgiManager.cpp:26-43 | the worker leaves the list and its keys the maps; a live worker loses its process entry exactly if it has the id of the removed one |
| CgiManager.CgiManager.IsCgiComplete | src/Cgi/CgiManager.cpp:314-343 | a finished worker is answered and removed, an unfinished one is left alone; only live workers with its process id lose their entry |
| CgiManager.CgiManager.EndEvent | src/Server/Client/Events/CgiEndEvent.cpp:17-57 | the first event answers with the finished worker of the client and removes it, or sends the default response when there is none; a second one does nothing; an announced worker gets its own response |
| CgiManager.CgiManager.AbortClient | src/Cgi/CgiManager.cpp:345-361 | exactly the client's worker is removed and no entry dangles; only live workers with its process id lose their entry |
| CgiManager.CgiManager.CleanupFinishedWorkers | src/Cgi/CgiManager.cpp:255-312 | every worker whose process is reported and known takes exactly its reaping step, all others stay; every live worker can still be found by its process |
| CgiManager.CgiManager.ReapOne | src/Cgi/CgiManager.cpp:262-305 | one turn forgets the process and tells its worker |
| CgiManager.CgiManager.CleanupTimedOutWorkers | src/Cgi/CgiManager.cpp:224-253 | exactly the idle workers are marked as timed out and have their clients queued in order; exactly the entries of their process ids go, whoever's they are; clients can still find their workers |
| CgiManager.CgiManager.OnRead | src/Cgi/CgiWorker.cpp:293-361 | a read event of a registered worker, with the reaping that a broken read sets off, moves the workers by their protocol steps and keeps the registry consistent, tracked and reapable |
| CgiManager.CgiManager.OnWrite | src/Cgi/CgiWorker.cpp:247-291 | so does a write event |
| CgiManager.ReuseId | src/Cgi/CgiManager.cpp:26-43 | whenever a new program gets the id of an old worker still registered, removing the old one leaves the new one live and without process entry |
| CgiManager.ReusedIdIsLost | src/Cgi/CgiManager.cpp:26-43 | such a run from the empty registry |
| CgiRuns.OperateAll | src/Server/Server.cpp:79-108 | over every run of creations, reads, writes, completions, aborts, reapings and sweeps no entry dangles and every announced worker is finished; with clients that wait for their response every started worker is found by its client; failed starts keep their places, and when they hold all, every creation is refused with 503 |
| CgiRuns.Operate | src/Server/Server.cpp:79-108 | each single operation keeps all of that |
| CgiRuns.End | src/Server/Client/Events/CgiEndEvent.cpp:17-57 | in such a registry a worker that was announced has its own response sent, never the default |
| Timeouts.TimeoutManager.Add | src/Lib/Timeout/TimeoutManager.cpp:14-26 | the registered entries become the old ones with this object re-registered last |
| Timeouts.TimeoutManager.Remove | src/Lib/Timeout/TimeoutManager.cpp:28-55 | the object's entry disappears, all others stay; empty buckets vanish |
| Timeouts.TimeoutManager.CheckAndHandleTimeouts | src/Lib/Timeout/TimeoutManager.cpp:57-87 | calls exactly the due objects in order, and leaves the entries not due, changed by the callbacks' own additions and removals |
| Timeouts.TimeoutManager.GetNextTimeoutInterval | src/Lib/Timeout/TimeoutManager.cpp:89-108 | the wait fits an int, is -1 or 0 exactly when nothing waits or something is due, and never passes the earliest deadline |
| Timeouts.DueExactly | src/Lib/Timeout/TimeoutManager.cpp:57-87 | a sweep calls an object if and only if it is due |
| Timeouts.CalledOnce | src/Lib/Timeout/TimeoutManager.cpp:57-87 | and nobody twice |
| Timeouts.DueAfterOp | src/Lib/Timeout/TimeoutManager.cpp:14-55 | an object added with a number of seconds is called by sweeps from that second on, whatever it waited for before, a removed one not at all, and nothing changes for others |
| Timeouts.DueSorted | src/Lib/Timeout/TimeoutManager.cpp:57-87 | a sweep calls by deadline, then by registration |
| Timeouts.LeastKey | src/Lib/Timeout/TimeoutManager.cpp:89-108 | the first key of the bucket map is the earliest deadline of all entries |
| Sessions.AlwaysPrompt | src/Session/SessionManager.cpp:32-121 | with positive timeouts and a clock that never runs back, in every run a non-empty store has a positive cleanup deadline that no session's expiry precedes |
| Sessions.CleanupIsExact | src/Session/SessionManager.cpp:116-121 | from such a store, cleanup leaves exactly the unexpired sessions |
| Sessions.CleanupExactOverRuns | src/Session/SessionManager.cpp:32-121 | after every run, with timeouts of 0 included, cleanup leaves exactly the unexpired sessions if and only if it is due or none of the sessions that the deadline misses is over |
| Sessions.RunCovers | src/Session/SessionManager.cpp:32-121 | the deadline precedes the expiry of every session that survived the last real cleanup or was created since, up to the last creation with timeout 0 |
| Sessions.NothingMissed | src/Session/SessionManager.cpp:32-121 | without timeout 0 the deadline misses no session |
| Sessions.ZeroTimeoutLingers | src/Session/SessionManager.cpp:32-121 | a run after which a session with timeout 0 and an older one with a positive timeout, long over, survive a cleanup |
| Sessions.AnswersAreEager | src/Session/SessionManager.cpp:57-74 | for all timeouts and every run, getSession answers as a store that purges before every call |
| Sessions.HandedOutExactly | src/Session/SessionManager.cpp:57-74 | whatever else is called in between, a session is handed out up to second last access + timeout and not later, never with timeout 0, and lives on from there |
| Sessions.CreatedIsHandedOut | src/Session/SessionManager.cpp:32-74 | so from its creation on |
| Sessions.AccessExtends | src/Session/SessionManager.cpp:57-74 | an access that hands a session out starts its time anew |
| Sessions.GoneStaysGone | src/Session/SessionManager.cpp:57-85 | a session destroyed, or refused once, is never handed out again |
| Sessions.DeadlineAfterCreation | src/Session/SessionManager.cpp:43-52 | a creation moves the deadline to the end of that session or leaves an earlier one |
| Sessions.SessionManager.CreateSession | src/Session/SessionManager.cpp:32-55 | store and cleanup deadline after a creation |
| Sessions.SessionManager.GetSession | src/Session/SessionManager.cpp:57-74 | the answer, and the store with the session refreshed or dropped |
| Sessions.SessionManager.CleanupExpiredSessions | src/Session/SessionManager.cpp:87-114 | the erasing loop, in any order of ids, leaves the unexpired sessions and their least expiry |
| LogRotation.FileSink.Rotate | src/Lib/Logger/Sink/FileSink.cpp:64-121 | backup k becomes what was one number below, gaps included; only the oldest is lost |
| LogRotation.FileSink.ShiftBackups | src/Lib/Logger/Sink/FileSink.cpp:64-121 | the descending loop moves every backup up by one without overwriting any |
| LogRotation.FileSink.Log | src/Lib/Logger/Sink/FileSink.cpp:34-62 | the line is appended, and a full file is rotated away |
| LogRotation.LogConserves | src/Lib/Logger/Sink/FileSink.cpp:34-121 | from any directory, what a call drops followed by what it retains is the old retained text followed by the line |
| LogRotation.RotatesExactly | src/Lib/Logger/Sink/FileSink.cpp:34-121 | file by file: below the limit the log file is the old text, the line and an LF; from it on it is empty and that text is the first backup |
| LogRotation.RetainedIsSuffix | src/Lib/Logger/Sink/FileSink.cpp:34-121 | after any number of calls the retained files, oldest first, are a suffix of everything there was |
| LogRotation.EmptyStartSuffix | src/Lib/Logger/Sink/FileSink.cpp:34-121 | from an empty directory they are a suffix of everything logged |
| Paths.Normalize | src/Lib/Path/Path.cpp:19-63 | the two loops compute the normalised path |
| Paths.NormalizedIsNormal | src/Lib/Path/Path.cpp:19-63 | no empty or "." component, ".." only in front and never in rooted paths; normalising twice changes nothing |
| Paths.NormalizeFront | src/Lib/Path/Path.cpp:19-63 | normalising the front of a path first makes no difference |
| Paths.SameTarget | src/Lib/Path/Path.cpp:19-63 | from every directory the normalised path leads where the path leads |
| Paths.Canonical | src/Lib/Path/Path.cpp:19-63 | two paths are normalised alike if and only if they lead to the same place from every directory |
| Uri.Encode | src/Http/URI/URI.cpp:142-158 | the loop computes the percent-encoding for either set of safe bytes |
| Uri.Decode | src/Http/URI/URI.cpp:36-95 | the index loops compute the decoding, Malformed where an exception is thrown |
| Uri.UriRoundTrip | src/Http/URI/URI.cpp:36-132 | decodeURI undoes encodeURI exactly for strings with well-formed lead and continuation bytes, and reports all others as malformed |
| Uri.RoundTrip | src/Http/URI/URI.cpp:36-158 | for either encoder the round trip holds if and only if the string is well-formed and no reserved byte was encoded |
| Uri.ComponentSlashStays | src/Http/URI/URI.cpp:104-140 | the component round trip fails for a single slash |
| Uri.EncodedIs | src/Http/URI/URI.cpp:116-158 | byte for byte an encoding is the character itself, if it is among those written out for the encoder, or a percent sign and two capital hexadecimal digits |
| Uri.LeftAlone | src/Http/URI/URI.cpp:36-140 | the characters that either encoder leaves alone, and those the decoder keeps encoded, written out |
| Uri.BytesByRange | src/Http/URI/URI.cpp:50-86 | lead and continuation bytes by their ranges |
| Uri.HexValueIs | src/Http/URI/URI.cpp:7-27 | hexadecimal digits are decoded in either case |
| Uri.PlainDecodes | src/Http/URI/URI.cpp:36-95 | a text without a percent sign decodes to itself |
| Uri.StrayPercent | src/Http/URI/URI.cpp:7-27 | a percent sign without two hexadecimal digits behind it makes a text malformed |
| Base64.Encode | src/Lib/Base64/Base64.cpp:24-56 | the loop over groups computes the encoding whatever the uninitialised third byte holds |
| Base64.Decode | src/Lib/Base64/Base64.cpp:58-93 | the loop computes the decoding of the alphabet characters before the first '=' |
| Base64.RoundTrip | src/Lib/Base64/Base64.cpp:24-93 | decoding an encoding gives back every byte string |
| Base64.EncodedLength | src/Lib/Base64/Base64.cpp:24-56 | four characters for every three bytes begun |
| Base64.EncodedIs | src/Lib/Base64/Base64.cpp:24-56 | group by group an encoding is the group's number in base 64, written with the alphabet A-Z a-z 0-9 + /, and '=' for each byte that the last group lacks |
| Base64.LetterIs | src/Lib/Base64/Base64.cpp:20-93 | sextet v is written as character v of that alphabet and read from no other |
| Base64.InsertionsAreIgnored | src/Lib/Base64/Base64.cpp:58-74 | characters outside the alphabet other than '=' may be inserted anywhere in an encoding |
| Base64.CanonicalText | src/Lib/Base64/Base64.cpp:24-93 | encoding a decoded text gives the text back if and only if it is canonical |
| Routing.GetLocation | src/Config/Config.cpp:110-133 | the longest key that starts the path, else "/", else nothing |
| Routing.BestRoot | src/Http/Resolver/RequestResolver.cpp:18-36 | the longest key that starts the path with the root of that location, or none |
| Routing.Route | src/Middleware/PipelineRouter/PipelineRouterMiddleware.cpp:13-47 | in any length-descending order of the routes the first match is the longest |
| Routing.RoutersAgree | src/Middleware/PipelineRouter/PipelineRouterMiddleware.cpp:13-47 | the three routers choose the same key if and only if a non-empty key starts the path or neither fallback key exists |
| Routing.StarDisagrees | src/Config/Config.cpp:110-133 | a path for which the routers differ |
| Routing.LongestIsUnique | src/Config/Config.cpp:110-133 | there is only one longest key, in whatever order the keys come |
| CgiPath.ExtractCgiScript | src/Http/Resolver/RequestResolver.cpp:120-181 | the loops compute the split at the first segment with a configured extension |
| CgiPath.SplitsAtFirstScript | src/Http/Resolver/RequestResolver.cpp:139-154 | the split succeeds if and only if some segment has a configured extension |
| CgiPath.WrittenPathSplits | src/Http/Resolver/RequestResolver.cpp:120-181 | a path written behind a location that ends with a slash is split behind its first segment with an interpreter |
| CgiPath.ExtensionIs | src/Http/Resolver/RequestResolver.cpp:139-154 | a name has an interpreter if and only if the text from its last dot on is configured |
| CgiPath.SplitLosesNothing | src/Http/Resolver/RequestResolver.cpp:120-181 | script and PATH_INFO together are the request path if and only if location and rest share exactly one slash |
| CgiPath.SlashInserted | src/Http/Resolver/RequestResolver.cpp:120-181 | a request whose script path differs from every prefix of it |
| CgiPath.ExtensionSurvives | src/Cgi/CgiManager.cpp:96-104 | on every success the extension found again from the whole script path is configured |
| CgiPath.IsCgiRequest | src/Middleware/PipelineRouter/CgiRouterMiddleware.cpp:13-33 | a request is routed to CGI if and only if the split succeeds |
| CgiPath.Interpreter | src/Cgi/CgiManager.cpp:96-104 | the interpreter configured for the script's extension, or none |
| VHost.ValidateListenCompatibility | src/Server/Bootstrap/ServerBootstrap.cpp:72-119 | accepts exactly the configurations where every server listens, no two listens share interface, port and host, and no port mixes wildcard and specific interfaces |
| VHost.Find | src/Server/VHost/VHostResolver.cpp:25-56 | the first server that names the header's host, else the last without a host name, else the first that listens on the key |
| VHost.ChosenByListens | src/Server/VHost/VHostResolver.cpp:25-56 | for any servers, told from their listens: the first that names the header's host, else the last with a blank host, else the first on the key, and none exactly if nobody listens there |
| VHost.ValidatedListens | src/Server/VHost/VHostResolver.cpp:25-56 | for validated, colon-free servers: the one with a listen for the key and the header's host, else the one with a listen for the key and a blank host; case, blanks and a port in the header do not matter |
| VHost.HostBeforeColon | src/Server/VHost/VHostResolver.cpp:6-21 | a host is what stands before the first colon, trimmed and in lower case |
| VHost.OrderFreeExactly | src/Server/VHost/VHostResolver.cpp:25-56 | the choice is the same in every order of the servers if and only if at most one server has the best claim |
| VHost.ValidatedChoice | src/Server/VHost/VHostResolver.cpp:25-56 | for validated, colon-free hosts the named server is chosen, else the one without host name; the order matters exactly if neither exists and several listen |
| VHost.HostsReadAlike | src/Server/VHost/VHostResolver.cpp:6-21 | without a colon, validation and choice read a configured host alike |
| VHost.ColonsDispute | src/Server/VHost/VHostResolver.cpp:6-21 | two validated servers whose choice depends on their order |
| YamlText.PrintedEntryReads | src/Lib/MyYAML/MyYAML.cpp:41-116 | key, value, kind and indentation of a printed line come back, bare list values included |
| YamlText.MapLineWithBlanks | src/Lib/MyYAML/MyYAML.cpp:41-116 | a map line reads the same with any or no blanks around key, colon and value |
| YamlText.ListLineWithBlanks | src/Lib/MyYAML/MyYAML.cpp:41-116 | so does a list line behind its dash and blank |
| YamlText.BrokenLines | src/Lib/MyYAML/MyYAML.cpp:41-116 | a dash without a blank and a colon without a key are refused |
| YamlText.StartCharCount | src/Lib/StringOps/StringOps.cpp:90-99 | the loop counts the leading spaces |
| Yaml.ParseLines | src/Lib/MyYAML/MyYAML.cpp:155-273 | the loop over lines with its three stacks ends as the step-by-step run does, and the finished tree is checked |
| Yaml.LinesComeBack | src/Lib/MyYAML/MyYAML.cpp:164-171 | lines written one after another are read back, with or without an LF behind the last |
| Yaml.Relevel | src/Lib/MyYAML/MyYAML.cpp:191-228 | indentation and state checks and the popping of levels, with every way to be refused or to underflow |
| Yaml.PopLevels | src/Lib/MyYAML/MyYAML.cpp:208-214 | the popping loop drops as many levels as are deeper than the line, or finds the node stack too short |
| Yaml.Push | src/Lib/MyYAML/Node.cpp:33-60 | type and duplicate checks of adding a child |
| YamlTree.ContainmentExactly | src/Lib/MyYAML/MyYAML.cpp:155-272 | when the loop accepts a file, every line's parent is the nearest earlier line with smaller indentation and nothing is lost if and only if the one-line look ahead agreed everywhere; with agreement no stack underflows and no type check in push fires |
| YamlTree.RunTied | src/Lib/MyYAML/MyYAML.cpp:155-264 | after every line the three stacks hold exactly the open lines with their indents and kinds |
| YamlStacks.UndefinedExactly | src/Lib/MyYAML/MyYAML.cpp:205-214 | the run takes from an empty stack if and only if it reaches a line that steps out of more levels than nodes are held, a number computed from the lines alone |
| YamlStacks.RunCounts | src/Lib/MyYAML/MyYAML.cpp:155-264 | in every run, misled or not, indents and states are those of the open lines, and the chain holds that number of nodes |
| YamlTree.AllSignificantAgree | src/Lib/MyYAML/MyYAML.cpp:251-263 | without blank and comment lines the look ahead agrees |
| YamlTree.MisledStep | src/Lib/MyYAML/MyYAML.cpp:251-263 | the line after the first misleading look ahead is rejected or gets a wrong parent |
| YamlAccept.AcceptedExactly | src/Lib/MyYAML/Node.cpp:96-206 | with agreement, a tree passes the final check if and only if all leaves carry values and no line with children was closed as a value |
| YamlAccept.RunClosedTied | src/Lib/MyYAML/Node.cpp:165-183 | a line is closed as a value exactly if a later line steps back out of its level directly from a sibling |
| YamlFits.RunGoesExactly | src/Lib/MyYAML/MyYAML.cpp:155-272 | with agreement, the loop passes if and only if every line fits: readable, named, on a level of its own kind or below all open lines, with a new key, and without value if the next line is deeper |
| YamlFits.AcceptedFiles | src/Lib/MyYAML/MyYAML.cpp:155-273 | with agreement, a file becomes a tree if and only if it has a significant line, all lines fit, leaves carry values and no line with children was closed |
| YamlFits.RunRefuses | src/Lib/MyYAML/MyYAML.cpp:155-272 | with agreement, a file is refused at its first line that does not fit, and for the fault of that line |
| YamlFits.PrintedFileComesBack | src/Lib/MyYAML/MyYAML.cpp:155-273 | the text of a file printed from entries comes back entry by entry, each under its nearest shallower predecessor, exactly if its lines fit and its tree is acceptable |
| YamlExamples.CommentAdopts | src/Lib/MyYAML/MyYAML.cpp:251-263 | an accepted file in which a comment makes a sibling a child |
| YamlExamples.BlankLosesData | src/Lib/MyYAML/MyYAML.cpp:206-243 | an accepted file whose first entries are not in the resulting tree |
| YamlExamples.BlanksCrash | src/Lib/MyYAML/MyYAML.cpp:205-214 | a file whose two blank lines end in a pop of an empty stack |
| YamlExamples.WellNestedRefused | src/Lib/MyYAML/Node.cpp:165-183 | a well nested file without blank or comment lines that is refused |

## Left out

- Sockets, epoll, fork, exec, pipes, signals and permissions: only what a call delivered enters the model.
- RequestHead.ParseRequestLine: cuts the target at the first '?'; the decoded query parameters are not modelled, so a malformed query never fails here.
- Clock: one reading on entry of a call and one in its loop. The chunk timeout of the source measures only the time inside a call that brought bytes, and so does the model.
- Chunk timeout setting: `Connection` keeps the default; the limits step of the source may set another value.
- RequestParser.Connection.Receive: after a failed receipt compares only the verdict and the error code, because the connection is closed then.
- Header map: one value per lower-cased name, as the duplicate check enforces.
- BodyParser.RequestBodyParser.ReadData: chunk sizes of at most SIZE_MAX - 2; above, `_chunkSize + 2` wraps and the source reads behind its buffer.
- BodyParser.RequestBodyParser.ParseChunked: body limits of at most SIZE_MAX - 2, for the same reason.
- BodyParser.RequestBodyParser.ParseBody: body limits of at most SIZE_MAX - 2, for the same reason.
- RequestParser.RequestParser.ParseBody: body limits of at most SIZE_MAX - 2, for the same reason.
- StringOps.SplitTokens: delimiters of one character, the only ones in use; so do StringOps.SplitJoin and StringOps.JoinSplit.
- Leftover and Content-Length checks of the body middleware behind the parser.
- CGI status: the message behind the status code, which no reply carries. A Status without digits gives 500, as the stream operator sets 0 then; by the letter of C++98 it would leave the old code.
- CGI exec failures reported on the status pipe. Which workers are idle, and when, is an input, and so is what waitpid reports. The waitpid calls beside the kills of aborted and idle workers are not modelled: they drop the exit status of a process whose entry goes at the same time.
- CGI registration that throws after the worker was stored.
- CgiRuns.OperateAll: says nothing about clients that start a second program while the first still runs, beyond what `CgiManager.CgiManager.CreateWorker` states for one creation.
- CGI worker of a failed start: its request body and the descriptors left open.
- Log rotation: removing and renaming succeed; formatting of log lines.
- Session identifiers: any id that is not in the store.
- Path resolution behind the prefix loop: the root is joined with the rest and checked against the file system.
- Routing keys: a map is a sequence of entries in arbitrary order; sorting is any ordering by descending length.
- Virtual hosts: the first reason for refusing a configuration is not fixed beyond its kind.
- YAML exceptions: a refusal carries line and kind, not the message. Node objects are records in a list, named by their line, and children are the nodes that name a parent; freeing of abandoned nodes is not modelled.
- Configuration keys, defaults and their inheritance, static files, error pages, MIME types, upload and delete handlers.
