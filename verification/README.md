# Verified model of the echo web server

This project models the stateful components of a C++ echo web server in Dafny and proves what they promise:
the expiration timer, the blocking deque and the thread pool, the life of a client in the event loop, the byte
buffer with its socket input and output, the HTTP request parser with its form decoding, template substitution, the
response builder, the log pattern parser and the configuration loader.

`dafny verify dfyconfig.toml` checks everything.

| file | component |
|---|---|
| `HeapTimer.dfy` | the indexed min-heap of timers |
| `CondVar.dfy`, `BlockDeque.dfy`, `ThreadPool.dfy` | the two monitors, as transition systems over every interleaving |
| `WebServer.dfy`, `ClientLaws.dfy`, `ClientRuns.dfy` | the event loop, the one-shot arming protocol and the worker tasks; when clients live and die; runs as they should be and runs that end badly |
| `Buffer.dfy`, `BufferRuns.dfy`, `Io.dfy` | the byte buffer, scatter reads, short writes, the receive and send loops |
| `Strings.dfy`, `UrlCoding.dfy`, `Form.dfy`, `FormShape.dfy` | searching, URL decoding, form bodies, and what becomes of any body |
| `Request.dfy`, `RequestLaws.dfy`, `RequestShapes.dfy` | the request parser, its laws, and which requests it accepts |
| `Template.dfy`, `Decimal.dfy`, `Response.dfy` | templates and responses |
| `Server.dfy`, `Conversation.dfy`, `Page.dfy` | the processing of a connection, all the replies that one input leads to, and which page answers which request |
| `LogPattern.dfy`, `Config.dfy`, `ConfigPath.dfy` | log patterns, configuration, and what the paths of its members mean |

Objects that the program updates in place are classes here, with the program's fields. Methods of the two monitors and
of the event loop are single critical sections: each is proved to be one step of a transition system, and the theorems
are about every finite sequence of steps. Bytes are characters. Exceptions are results or error values. A clock is a
sequence of readings or a field that only grows.

Some conventions of the model:

- A key moved out of the form scanner is empty afterwards, as it is for the standard library's strings.
- The regular expressions of the parser are written out as functions; `[^ ]` and `[^:]` match line breaks, `.` does not.
- `std::stoi` on the two characters after `%` is written out in full, with white space, signs and trailing characters.
- A hash map of parameters is traversed in an arbitrary order.
- `ThreadPool::Push` asserts outside the lock that the pool is open, so a push may take the mutex after `Close`; the
  interleavings include that.
- The callback of a timer is identified by a number and removes a list of keys.

Where the code and its comments disagree the model follows the code: `WaitForSpace` is documented to notify a producer
but notifies nobody; `ExtractUserMessage` tests the user twice and never the message; `%%` in a log pattern keeps one
percent sign as text and starts a field at the second.

## What turned out to be false

Each of these has a lemma with the exact condition, and an input or a run on which the property fails.

- Removing a timer relies on the sentinel expiration time zero. The removed node reaches the root if and only if it is
  the root already or no expiration time is negative (`HeapTimers.SentinelReachesRoot`,
  `HeapTimers.SentinelFailsOnNegativeExpiration`).
- `BlockDeque::Clear` frees every slot without notifying a producer, so a waiting producer and a waiting consumer can
  block each other. A run loses no slot if and only if each `Clear` in it comes when no producer waits un-notified or
  enough are notified (`BlockDeques.NeverLosesSlots`, `BlockDeques.ClearCanDeadlock`).
- A client may expire while its task runs; the end of that task then finds no timer and the server stops. In every
  state of a run the tasks find their clients if and only if no client expires while a task of it is queued or running
  (`WebServers.PunctualExactly`, `ClientRuns.LateTaskRun`).
- An exception in the dispatch loop drops the rest of the delivered events, whose one-shot sockets stay silent until
  their clients time out. In a run that does not stop the server nobody is ever forgotten if and only if such an
  exception drops only events of clients that are due already (`WebServers.NobodyForgottenExactly`,
  `ClientRuns.ForgetfulRun`).
- A form body is decoded before it is split, so escaped delimiters are not recovered (`Forms.FormRoundTrip`,
  `Forms.EscapedDelimiterIsLost`).
- The order of template parameters may matter, since a value may bring in another placeholder or a part of one. It
  does not matter, whichever of the parameters are given, if and only if for each parameter, once all others are filled in, its placeholder occurs only where
  the template has it or is replaced by itself (`Templates.OrderFreeExactly`, `Templates.OrderMattersWithDollar`).

## Model

| member | source | states |
|---|---|---|
| HeapTimers.SiftedUpIsHeap | include/containers/heap_timer.h:336-350 | sifting up repairs a heap with one node too small for its parent |
| HeapTimers.SiftedUpRoot | include/containers/heap_timer.h:195-206 | sifting up climbs over ties: the node becomes the root exactly when it is not later than the root was, and otherwise the root stays |
| HeapTimers.SiftedDownIsHeap | include/containers/heap_timer.h:352-366 | sifting down towards the smaller child repairs a heap with one node too large for its children |
| HeapTimers.SentinelReachesRoot | include/containers/heap_timer.h:478-483 | the assertion of a removal holds if and only if the node is the root or no expiration time is negative |
| HeapTimers.SentinelFailsOnNegativeExpiration | include/containers/heap_timer.h:478-483 | a heap with a negative expiration time in which removing another key does not bring it to the root |
| HeapTimers.SwapKeepsAgreement | include/containers/heap_timer.h:393-402 | exchanging two nodes and both index entries keeps the index the exact inverse of the positions and the represented map unchanged |
| HeapTimers.HeapTimer.ShiftUp | include/containers/heap_timer.h:336-350 | the loop terminates in the sifted array, keeping the index exact and the map unchanged |
| HeapTimers.HeapTimer.ShiftDown | include/containers/heap_timer.h:352-366 | the loop terminates in the sifted array, keeping the index exact and the map unchanged |
| HeapTimers.HeapTimer.Adjust | include/containers/heap_timer.h:288-303 | replaces the expiration time, and the callback if one is given, of a known key in the map; an unknown key is reported and changes nothing |
| HeapTimers.HeapTimer.Push | include/containers/heap_timer.h:311-322 | puts the key with its new time and callback into the map, whether it was there or not |
| HeapTimers.HeapTimer.RemoveByIndex | include/containers/heap_timer.h:469-498 | exactly the key at the position leaves the map, and heap order and index agreement hold again |
| HeapTimers.HeapTimer.Remove | include/containers/heap_timer.h:257-265 | exactly the key leaves the map, if it was there |
| HeapTimers.HeapTimer.Pop | include/containers/heap_timer.h:440-444 | returns a key whose expiration time is least and takes exactly it out of the map |
| HeapTimers.HeapTimer.Invoke | include/containers/heap_timer.h:446-461 | hands the callback of a known key out once and removes exactly that key |
| HeapTimers.HeapTimer.Tick | include/containers/heap_timer.h:404-425 | fires expired nodes in order, leaves only nodes later than the last reading, and takes out exactly the fired keys and those their callbacks removed |
| HeapTimers.FiringsAreOrderedAndUnique | include/containers/heap_timer.h:404-425 | no key fires twice or after an earlier callback removed it, and expiration times never decrease |
| HeapTimers.DueKeysLeave | include/containers/heap_timer.h:404-425 | on a monotonic clock a key due at any reading of the run is gone afterwards, and one later than all readings has not fired |
| HeapTimers.HeapTimer.ToNextTick | include/containers/heap_timer.h:427-438 | the interval is the least remaining expiration time minus now, at least zero, and zero when the timer is empty |
| HeapTimers.HeapTimer.Drain | tests/containers/heap_timer_test.cpp:45-64 | popping until empty lists every key once, sorted by expiration time |
| BlockDeques.AlwaysConserved | include/containers/block_deque.h:161-199 | in every interleaving the size respects the capacity and accepted items are, as multisets, the popped, queued and discarded ones |
| BlockDeques.NeverLosesItems | include/containers/block_deque.h:225-254 | in every interleaving a consumer waiting un-notified means the deque is open and has at most as many items as notified consumers |
| BlockDeques.NeverLosesSlots | include/containers/block_deque.h:256-260 | a producer waiting un-notified means at most as many free slots as notified producers, throughout a run, if and only if each Clear in it meets the condition of the step |
| BlockDeques.NoLostSlotStep | include/containers/block_deque.h:174-178 | a step keeps the slot property except Clear, which keeps it exactly when no producer waits un-notified or enough are notified |
| BlockDeques.NeverDeadlocked | include/containers/block_deque.h:185-260 | unless a Clear in the run loses slots, a pending Pop and a pending push are never both stuck with nobody able to run |
| BlockDeques.ClearCanDeadlock | include/containers/block_deque.h:174-178 | a run with Clear that ends in such a deadlock |
| BlockDeques.WaitingConsumerMeansProgress | include/containers/block_deque.h:185-191 | while items are queued and a consumer waits un-notified, some notified consumer takes the first item when it runs |
| BlockDeques.FirstInFirstOut | include/containers/block_deque.h:185-191 | with PushBack only, popped items are a subsequence of the accepted ones, and a prefix while nothing is discarded |
| BlockDeques.LastInFirstOut | include/containers/block_deque.h:193-199 | with PushFront only, the queued items are always, from back to front, in the order of acceptance |
| BlockDeques.NothingPoppedAfterClose | include/containers/block_deque.h:160-167 | after Close, in every continuation, no item is popped and no consumer waits |
| BlockDeques.WokenUp | include/containers/block_deque.h:225-260 | entering, waking up, a time-out, a notification and Close each let a thread get the mutex, and only its own critical section takes that away |
| BlockDeques.TimedOutPopReturns | include/containers/block_deque.h:238-241 | once the time-out of a Pop has elapsed, whatever else happens before it gets the mutex, the call then ends, with the first item if there is one and the deque is open and with nothing otherwise |
| BlockDeques.TimedOutRun | include/containers/block_deque.h:225-254 | a run in which a consumer waits, wakes up for nothing, waits again and returns with nothing when its time-out has elapsed |
| BlockDeques.CallEndsExactly | include/containers/block_deque.h:185-260 | a call ends in its own critical section exactly when the deque lets it, a push with its item put in and a Pop with the first item or nothing; otherwise its thread blocks |
| BlockDeques.DiscardsEverything | include/containers/block_deque.h:160-178 | Clear and Close discard exactly what is queued |
| BlockDeques.BlockDeque.Pop | include/containers/block_deque.h:225-254 | the critical section is the step of the transition system; it yields the first item, nothing when closed or timed out, or waits |
| BlockDeques.BlockDeque.Push | include/containers/block_deque.h:185-199 | the critical section is the step of the transition system; it waits exactly when the deque is full |
| BlockDeques.BlockDeque.CloseAll | include/containers/block_deque.h:160-167 | the critical section is the step that discards all items and notifies everybody |
| ThreadPools.AlwaysServed | src/containers/thread_pool/thread_pool.cpp:38-76 | in every interleaving, pushes after Close included, tasks start at most once and in push order, and a worker waiting un-notified means an open pool with at most as many tasks as notified workers |
| ThreadPools.PendingMeansProgress | src/containers/thread_pool/thread_pool.cpp:45-76 | with tasks pending in an open pool, a worker is busy or can take the first task at once |
| ThreadPools.NothingStartsAfterClose | src/containers/thread_pool/thread_pool.cpp:78-82 | after Close, whatever is still pushed, no task starts, no worker waits, and each worker that runs exits |
| ThreadPools.TypicalRun | src/containers/thread_pool/thread_pool.cpp:38-82 | a run in which a worker waits, wakes up for nothing, waits again, runs a task and exits after Close |
| ThreadPools.FinishedWorkerGoesOn | src/containers/thread_pool/thread_pool.cpp:45-76 | when its task has ended, a worker can take the mutex whatever else happens before, and then starts the first pending task of an open pool |
| ThreadPools.ThreadPool.Take | src/containers/thread_pool/thread_pool.cpp:56-65 | the critical section is the step of the transition system; it yields the first task, an exit, or a wait |
| ThreadPools.ThreadPool.Enqueue | src/containers/thread_pool/thread_pool.cpp:38-43 | the critical section is the step that appends a task and notifies one worker |
| WebServers.TokensStep | include/web_server.h:86-110 | the activities of a client (armed socket, delivered event, queued task, running task) are conserved by every step, up to the listed creations and drops |
| WebServers.AlwaysOneActivity | include/web_server.h:136-137 | in every state of every run each client has at most one activity |
| WebServers.ConnectionsAreExclusive | include/web_server.h:212-230 | two workers never run tasks of the same client, and the socket of a client with a running task is disarmed |
| WebServers.TablesAgree | include/web_server.h:263-310 | outside the closing of a client, connections, timers and registered sockets have the same keys |
| WebServers.AbortsIff | include/web_server.h:256-261 | a step stops the server exactly when a task ends after its client has expired |
| WebServers.PunctualRunsNeverAbort | include/web_server.h:312-350 | if no client expires while a task of it is pending, every marking finds its key |
| WebServers.PunctualExactly | include/web_server.h:312-350 | pending tasks find their clients in every state of a run if and only if no client expires while a task of it is pending |
| WebServers.LateRunsCanAbort | include/web_server.h:256-261 | every run in which a client expires while a task of it is pending can go on so that the server stops |
| ClientRuns.ServedRun | include/web_server.h:86-116 | a run from the start in which a client is accepted, its request received and its reply sent, after which the server waits for its next request |
| ClientRuns.HangupRun | include/web_server.h:86-116 | a run from the start in which a client hangs up and is closed, with nothing left of it |
| ClientRuns.LateTaskRun | include/web_server.h:256-261 | a run from the start in which a client expires while its task runs and the failing end of the task stops the server |
| ClientRuns.ForgetfulRun | include/web_server.h:86-116 | a run from the start in which an exception while accepting leaves a client that is not due without any activity |
| WebServers.NobodyForgottenStep | include/web_server.h:86-116 | a step forgets a client exactly when an exception drops the undelivered event of a client that is not due |
| WebServers.NobodyForgottenExactly | include/web_server.h:86-116 | in a run that does not stop the server nobody is ever forgotten if and only if every exception in the dispatch loop drops only events of clients that are due already |
| WebServers.WaitingServesEverybody | include/web_server.h:89-93 | if no exception has dropped an event of a client that was not due, every client has exactly one activity when the main thread starts waiting |
| ClientLaws.TasksAlwaysFit | include/web_server.h:212-230 | in every run a queued or running task does what its client's socket was last registered for, receive or send |
| ClientLaws.SocketsWaitForWhatWasAsked | include/web_server.h:352-363 | in every run each socket is registered for what the last task of its client has asked for, and for receiving if there has been none since it was accepted |
| ClientLaws.RearmIsGranted | include/web_server.h:352-363 | a task that goes on leaves the socket armed for what it has asked for |
| ClientLaws.AskedForIsDeliverable | include/web_server.h:352-363 | of an armed socket exactly the event that was last asked for can be delivered |
| ClientLaws.TasksDoWhatWasAsked | include/web_server.h:212-230 | each queued or running task receives if receiving was last asked for and sends if sending was |
| ClientLaws.CallbacksClose | include/web_server.h:263-282 | in every run the callback of a client's timer removes exactly that client |
| ClientLaws.ClosedOnlyWhenDue | include/web_server.h:237-261 | in every run a client is closed only if it was marked or its alive time has passed since it was accepted and since its last event that started a task |
| ClientLaws.DueClientsAreGone | include/web_server.h:248-261 | when the main thread starts waiting, every marked client and every client idle for its alive time is gone |
| WebServers.WebServer.OnEvent | include/web_server.h:99-109 | the dispatch of a client's event is the step of the transition system, on the real timer |
| WebServers.WebServer.AddClient | include/web_server.h:263-282 | registers the armed socket, the connection and the timer together |
| WebServers.WebServer.ExpireRoot | include/web_server.h:91 | pops a client exactly when the earliest one has expired, and otherwise goes on to wait |
| WebServers.WebServer.CloseClientOf | include/web_server.h:291-310 | the callback finds its connection, removes it everywhere, and its removal of the timer finds none |
| WebServers.WebServer.RearmClient | include/web_server.h:352-363 | the end of a task that goes on registers the socket for the next event; on a socket that is gone it stops the server |
| WebServers.WebServer.GiveUpClient | include/web_server.h:312-350 | the end of a task that gives up marks the client and frees the worker |
| WebServers.WebServer.MarkClientAsToBeClosed | include/web_server.h:256-261 | makes the client due now; an unknown client stops the server |
| WebServers.WebServer.ExtendClientAliveTime | include/web_server.h:237-246 | renews the deadline of a known client and reports an unknown one |
| Buffers.Buffer.MakeSpace | src/containers/buffer/buffer.cpp:121-132 | makes room by growing or compacting and keeps the readable bytes |
| Buffers.Buffer.CopyForward | src/containers/buffer/buffer.cpp:126 | the overlapping ascending copy is sound when the reading cursor is positive |
| Buffers.Buffer.EnsureWriteableSize | src/containers/buffer/buffer.cpp:113-119 | afterwards enough bytes are writable and the readable bytes are unchanged |
| Buffers.Buffer.Append | src/containers/buffer/buffer.cpp:94-107 | the data is added after the readable bytes |
| Buffers.Buffer.HasWritten | src/containers/buffer/buffer.cpp:146-149 | the bytes after the writing cursor become readable |
| Buffers.Buffer.Retrieve | src/containers/buffer/buffer.cpp:151-154 | the first readable bytes are taken |
| BufferRuns.FirstInFirstOut | src/containers/buffer/buffer.cpp:94-167 | over any run of appending, filling behind the cursor, reserving, retrieving and clearing, the bytes that have left followed by the readable bytes are the bytes put in |
| BufferRuns.Replay | src/containers/buffer/buffer.cpp:94-167 | any such run on a buffer behaves as the same run on a byte queue |
| Sockets.ReadInto | src/io/io.cpp:42-66 | one scatter read moves a non-empty beginning of the stream to the end of the buffer, whatever the room in it |
| Sockets.WriteFrom | src/io/io.cpp:68-77 | one short write moves the beginning of the readable bytes to the socket |
| Sockets.Connection.ReceiveAll | src/http/http.cpp:197-212 | whatever the portions, the whole stream is appended and counted; another error than would-block is reported |
| Sockets.Connection.SendAll | src/http/http.cpp:214-233 | whatever the short writes, exactly header and file are sent; when a write fails exactly the beginning that got out before it is sent, and the unsent header bytes are kept |
| Sockets.EverythingIsSent | src/http/http.cpp:214-233 | without a failing write all bytes get out |
| UrlCodings.DecodeString | src/http/http.cpp:125-145 | the loop computes the decoding, or fails exactly when it is malformed |
| UrlCodings.HexDigitExactly | src/http/http.cpp:114-123 | digits are read exactly as they are written, in both cases |
| UrlCodings.HexPairIsStoi | src/http/http.cpp:114-123 | the two characters after '%' are read as `std::stoi` in base 16 reads them, white space and signs included, and cut to a byte |
| UrlCodings.MalformedExactly | src/http/http.cpp:125-145 | decoding fails if and only if the scanning comes to a '%' that does not begin an escape |
| UrlCodings.DecodedEncoding | src/http/http.cpp:114-145 | decoding any percent-encoding gives the text back, up to '+' for spaces |
| Forms.ParseURLEncoded | src/http/request.cpp:235-279 | the scanner that rewrites the string it slices computes the character-wise meaning of the decoded body |
| FormShapes.ScannerSplits | src/http/request.cpp:235-279 | for every body the scanner does the same as splitting the decoded text at '&' and each pair at '=', with the exact result |
| Forms.CleanFormScans | src/http/request.cpp:235-279 | any encoding of pairs without delimiters, repeated keys allowed, is accepted if and only if the last pair has a value and a new key; all pairs, or all but the last, are collected |
| Forms.FirstPairWins | src/http/request.cpp:235-279 | of several pairs with the same key the first one counts |
| Forms.FormRoundTrip | src/http/request.cpp:235-279 | parsing any encoding of pairs with distinct keys yields that map if and only if there is a pair, keys are not empty, nothing contains '=', '&' or '+', and the last value is not empty |
| Forms.EscapedDelimiterIsLost | src/http/request.cpp:235-279 | a well-encoded body with an escaped '=' in a key that is read as another key |
| Requests.Request.Parse | src/http/request.cpp:103-124 | terminates with the outcome of the line-wise parse, the buffer holding what is left; an empty buffer is rejected |
| Requests.Request.ParseStatusLine | src/http/request.cpp:182-194 | sets method, path and version from a line with exactly two spaces, or changes nothing |
| Requests.Request.ParseHeader | src/http/request.cpp:196-207 | adds a header unless its name is there, ends the headers on an empty line, or fails |
| Requests.Request.ParseBody | src/http/request.cpp:209-233 | accepts only the form body of a form post |
| RequestShapes.StatusAccepted | src/http/request.cpp:182-194 | a status line is accepted if and only if it has exactly two spaces, a known method before the first and "HTTP/" after the second |
| RequestShapes.MethodsExactly | src/http/http.cpp:93-108 | the methods are known by their names in any mixture of capital and small letters |
| RequestShapes.StatusErrors | src/http/request.cpp:182-194 | a rejected status line is of the right form but with an unknown method, or it is not of that form; it changes nothing |
| RequestShapes.SpaceBeforeValue | src/http/request.cpp:196-207 | one space before the value is not part of it, and it may be missing |
| RequestShapes.BodyErrors | src/http/request.cpp:209-233 | which of the three errors a body is rejected with, and when it is accepted |
| RequestShapes.OtherErrors | src/http/request.cpp:196-207 | the error of a rejected header line, and of a line after the body |
| RequestShapes.HeaderAccepted | src/http/request.cpp:196-207 | a line among the headers is accepted if and only if it is empty or has a colon and no line break after the first colon |
| RequestShapes.AcceptedExactly | src/http/request.cpp:103-233 | a request is accepted if and only if its lines are a status line, header lines, and perhaps a blank line and the form of a form post |
| RequestShapes.ShapeParses | src/http/request.cpp:103-233 | a request of such lines is read as what they say, method case and header spacing aside |
| RequestLaws.LinesSplit | src/http/request.cpp:110-123 | the lines with their line breaks are the text again |
| RequestLaws.LinesHaveNoBreak | src/http/request.cpp:111-112 | no line contains a line break |
| RequestLaws.ParseIsFold | src/http/request.cpp:109-124 | parsing is the fold of the state step over the lines, up to the first exception |
| RequestLaws.RestStartsAtRejectedLine | src/http/request.cpp:114-122 | success empties the buffer; failure leaves it at the rejected line, after accepted ones |
| RequestLaws.ParsingAdvances | src/http/request.cpp:209-233 | states only advance, and an accepted request with parameters is a finished form post |
| RequestLaws.RequestRoundTrip | src/http/request.cpp:103-233 | parsing a printed request recovers method, path, version, headers and parameters |
| RequestLaws.FirstHeaderWins | src/http/request.cpp:200 | a header has the value of the first line with its name, and is there if and only if there is such a line |
| Templates.ReplaceAllSubstring | src/util/util.cpp:33-49 | the loop terminates and replaces, from the left, every occurrence |
| Templates.ReplacedJoinsPieces | src/util/util.cpp:33-49 | replacing is splitting at leftmost non-overlapping occurrences and joining |
| Templates.PiecesHaveNoOccurrence | src/util/util.cpp:33-49 | no piece contains an occurrence |
| Templates.PiecesJoin | src/util/util.cpp:33-49 | the pieces joined with the occurrence are the text again |
| Templates.ReplaceFills | src/http/http.cpp:147-157 | replacing a placeholder text fills exactly the placeholders of that key |
| Templates.ReplaceFillsExactly | src/http/http.cpp:147-157 | for any texts and values, replacing fills exactly the placeholders of the key if and only if its placeholder text occurs nowhere else or is replaced by itself |
| Templates.OrderFreeExactly | src/http/http.cpp:151-157 | for any texts and values, whichever parameters are given and in whatever order, the result is the simultaneous substitution, if and only if for each parameter, with all others filled in, its placeholder occurs only where the template has it |
| Templates.WrongStepsCanCancel | src/http/http.cpp:151-157 | a template and two parameters for which both orders give the simultaneous substitution although the first parameter alone does not |
| Templates.PutParamIntoHTML | src/http/http.cpp:151-157 | the result is that of some order of the parameters |
| Templates.SubstitutionIsOrderFree | src/http/http.cpp:151-157 | for values without '$' every order gives the simultaneous substitution, unmatched placeholders staying |
| Templates.OrderMattersWithDollar | src/http/http.cpp:151-157 | a value with '$' for which two orders differ |
| Decimals.DecimalOf | src/http/response.cpp:144 | a number is written digit by digit, the last one at the end |
| Decimals.DecimalRoundTrip | src/http/response.cpp:144 | a number printed in decimal is parsed back |
| Responses.LinesAreFound | src/util/util.cpp:60-63 | a text of several lines is split into exactly them, whatever carriage returns are before its line breaks, unless it ends with one |
| Responses.EndedLinesAreFound | src/util/util.cpp:60-63 | a text that ends with a line break has no further line after it |
| Responses.PageKeepsLines | src/http/response.cpp:146-153 | the lines of a page are the lines of the filled template |
| Responses.StatusLines | src/http/response.cpp:98-103 | the status lines, word for word |
| Responses.HeadersAreReadBack | src/http/response.cpp:105-113 | a reader finds under "Connection" and "keep-alive" whether the connection is kept, and the content type |
| Responses.ExtensionOf | src/http/http.cpp:31-58 | the extension is what follows the last dot of the file's name, whatever the directory is |
| Responses.NoExtension | src/http/http.cpp:31-58 | a name without a dot, or with one at its beginning only, has no extension |
| Responses.JoinedLength | src/http/response.cpp:139-142 | the length computed from the lines is the length of the text appended from them |
| Responses.Builder.AddParamContent | src/http/response.cpp:125-154 | appends the filled template with its length |
| Responses.Builder.Build | src/http/response.cpp:67-96 | appends one whole response whose announced length is that of its body, or of the file to be sent after it |
| Responses.ResponseIsReadBack | src/http/response.cpp:98-123 | a reader finds the announced number in the headers and the body after the first blank line |
| Servers.Process | src/http/http.cpp:235-281 | nothing happens without input; otherwise the reply the request must get is appended and the rest of the input kept |
| Pages.IndexIsAnswered | src/http/http.cpp:257-268 | an accepted request for the root or the index page gets that page, filled with what the user has posted, the message hidden exactly when no user is posted, or the page that reports why it is not there |
| Pages.FileIsAnswered | src/http/http.cpp:269-275 | an accepted request for another path gets that file as it is, or the page that reports why it is not there |
| Pages.RejectionIsAnswered | src/http/http.cpp:276-278 | a rejected request gets the status page, filled with 400, "Bad Request" and the reason |
| Pages.FailureText | src/http/response.cpp:156-177 | the text of the page that reports a failure |
| Pages.ContentTypeOf | src/http/http.cpp:31-58 | the content type goes by the extension in any case of letters, and is plain bytes for an unknown one |
| Pages.KeptExactly | src/http/request.cpp:143-150 | a printed request keeps its connection if and only if it is of version 1.1 and the first "Connection" header says "keep-alive" |
| Pages.FormHeaderExactly | src/http/request.cpp:209-233 | a form may follow if and only if the first "Content-Type" header is that of forms |
| Pages.PostedIsShown | src/http/http.cpp:235-281 | a printed post of a form to the root gets the index page with the user and the message of the form |
| Pages.SimpleRequest | src/http/request.cpp:103-124 | what the bytes of the simplest request are read as |
| Servers.ReplyIsFramed | src/http/response.cpp:98-177 | in header and file bytes together the announced length is the number of bytes after the first blank line |
| Servers.Serve | include/web_server.h:312-350 | receiving, processing and sending emit exactly the reply to the received bytes, however they were cut, or the beginning of it before a failing write; nothing is sent when receiving fails or nothing was received |
| Conversations.KeptMakesProgress | src/http/http.cpp:235-281 | a request that keeps its connection has an accepted first line and leaves less input than there was |
| Conversations.OnlyLastIsAccepted | src/http/http.cpp:235-281 | of the requests that one input is taken for, only the last one can have been accepted |
| Conversations.NoMoreRoundsThanLines | include/web_server.h:330-350 | an input leads to no more replies than it has lines |
| Conversations.Converse | include/web_server.h:312-363 | receiving, processing and sending in turn ends; unless something fails every request that the input is taken for gets its reply, in order, and the client stays open exactly if the last one keeps the connection; after a failing write a beginning of that was sent |
| LogPatterns.ParseFieldIn | src/log/field.cpp:136-169 | the inner loop makes progress and finds tag, format and end, or an unclosed format |
| LogPatterns.ParsePattern | src/log/field.cpp:123-179 | the nested loops terminate with the fields of the pattern |
| LogPatterns.LettersExactly | src/log/field.cpp:136-169 | which characters a tag is made of |
| LogPatterns.TwoPercents | src/log/field.cpp:123-135 | of two percent signs the first one is text and the second one may start a field |
| LogPatterns.UnclosedFormat | src/log/field.cpp:136-169 | a format that is not closed makes the pattern incorrect |
| LogPatterns.TextDoesNotMatter | src/log/field.cpp:123-179 | text before a field does not change whether the pattern is correct |
| LogPatterns.PrintIsNotLonger | src/log/field.cpp:123-179 | the fields that were read print to a pattern that is not longer |
| LogPatterns.PatternRoundTrip | src/log/field.cpp:123-179 | parsing printed fields returns them if and only if no raw strings are adjacent and none lengthens or formats a plain tag |
| Configs.MergeIsStable | src/config/config.cpp:44-49 | merging sorted lists keeps members with the same path in order, the first list first |
| Configs.MergedEntries | src/config/config.cpp:33-54 | each merge meets its requirement of sorted lists, and all paths extend the prefix |
| Configs.ExtractMembers | src/config/config.cpp:33-54 | the loop of merges computes the extraction |
| Configs.ExtractionIsStableSort | src/config/config.cpp:33-54 | extraction is the stable sort of the tree by path |
| Configs.Config.LoadYaml | src/config/config.cpp:85-96 | assigns existing variables in the sorted order and stops at the first failing conversion |
| Configs.LoadingFollowsDocument | src/config/config.cpp:85-96 | if conversions succeed, each variable gets the value of the last member with its name in the document, and no variable appears or disappears |
| Configs.StopsAtFirstFailure | src/config/config.cpp:85-96 | the first conversion that fails ends the loading; exactly the members before it have been assigned |
| ConfigPaths.MembersAreReached | src/config/config.cpp:33-54 | the members are exactly the nodes that keys lead to, each with those keys, joined by dots, as its path |
| ConfigPaths.VariableGetsItsNode | src/config/config.cpp:85-96 | a variable gets the converted node that its name, taken as keys with dots between them, leads to |
| ConfigPaths.OtherVariablesStay | src/config/config.cpp:85-96 | a variable whose name leads to no node keeps its value |
| ConfigPaths.LessExactly | src/config/config.cpp:44-49 | paths are ordered as strings: a beginning first, then by the first difference |

## Left out

- HeapTimers.HeapTimer.Invoke: callbacks that change the heap, because the position is read before the call.
- HeapTimers.HeapTimer.Tick: callbacks that push or adjust timers, and timers with negative expiration times.
- HeapTimers.HeapTimer.ToNextTick: callbacks that push or adjust timers, and timers with negative expiration times, as for `Tick`.
- Conversations.Converse: bytes that arrive while replies are being sent, which are received only after the last reply.
- BlockDeques.NeverDeadlocked: runs in which a Clear loses slots; such a run can deadlock.
- Templates.OrderFreeExactly: keys with '$' or '<'; and the orders of all parameters alone, for which the condition is enough but not needed, since wrong steps can cancel out (`WrongStepsCanCancel`).
- BlockDeques.BlockDeque.Push: does not look at the closed flag, as the source does not; producers that wait on a full closed deque are not woken up.
- WebServers.PunctualRunsNeverAbort: unlocked access to the timer from `ToNextTick`; each locked section and each half of an expiration is one step.
- WebServers.WebServer.OnEvent: registering a socket never fails while it is registered, and the closing of the whole server.
- WebServers.WebServer.ExpireRoot: the two clock readings of an expired client and of the next one are the same field.
- Sockets.Connection.ReceiveAll: the end of the stream, on which a read returns zero and the loop never ends.
- Templates.ReplaceAllSubstring: an empty text to search for, on which the loop never ends.
- UrlCodings.DecodeString: characters beyond bytes.
- Servers.Serve: the root directory and the resolution of paths; a disk is a map from requested paths to contents.
- Configs.Config.LoadYaml: listeners, and the YAML text of a node; a conversion is any partial function of a name and a node.
- LogPatterns.ParsePattern: the conversion of fields into formatters.
- Sockets, `epoll` and `mmap` themselves, IP addresses, back traces, singletons, the logger with its appenders, and `main`.
