# Boost.Asio examples: protocol and message proofs

This project models the four parts of the repository that have logic of their own, and proves what they
keep in every run.

* **The asynchronous TCP client** (`003_client/003_async_tcp_client.cpp`) is a small-step system over any
  number of threads and sessions: `AsyncTcpClient.dfy` has the steps (lock operations, accesses to shared
  data, starts of operations, the hand-over of a finished operation to a pool thread),
  `AsyncTcpClientInvariant.dfy` the invariant every step keeps, `AsyncTcpClientTheorems.dfy` what follows for
  every run, `AsyncTcpClientAnswers.dfy` what the callback delivers, `AsyncTcpClientClosing.dfy` that runs come
  to an end once `Close` is called, and `AsyncTcpClientWitnesses.dfy` runs that show why the hypotheses are needed.
* **The HTTP pair** (`005_http`). `HttpRequest.dfy` and `HttpService.dfy` have the two classes with their
  fields; each method is proved to do what a function on the object's state says, and the theorems are about
  that function. `Streams.dfy` and `Asio.dfy` describe the string streams and the read operations,
  `HeaderLoop.dfy` the header loop with its reused local variables, `HttpReceive.dfy` and
  `HttpSegmentation.dfy` a response that arrives in arbitrary pieces, `HttpFirstLine.dfy` and `HttpCuts.dfy` exactly
  which byte streams are received alike in all pieces, and `HttpExchange.dfy` the two classes talking to each other.
* **The asynchronous TCP server** (`004_server/002_async_tcp_server.cpp`): `AsyncServer.dfy`.
* **Byte transfer** (`002_io`): `Transfer.dfy` has the partial reads and writes, as loops and as callback
  chains, `HalfClose.dfy` the exchange in which each side shuts down its half.

## Assumptions about the libraries

* A started asynchronous operation completes exactly once, with success or any error. What `cancel()` does to
  an operation in flight is covered by the arbitrary error code.
* The io_service stops only while its outstanding work is zero, and `run()` returns only after that.
* `async_write` and `write` send the whole buffer when they succeed; `read_some` and `write_some` move any
  positive number of bytes.
* `async_read_until` appends pieces until the delimiter is in the buffer and keeps the surplus; a full buffer
  without the delimiter is `not_found`. `async_read` ends when the stream ends.
* `std::getline` and `>>` leave their target alone when the stream is not good on entry; `>>` also does when
  only white space is left. `stoul` throws on anything that is not a number below 2^64.
* Callbacks take no locks and do not throw; `shutdown` does not throw; `Close` is called once. One access to
  shared data is one atomic step, also the unguarded read of `m_was_cancelled` in `OnRequestComplete`.

## Where the code differs from its intent

The models follow the code:

* `HttpService` reads the version into `m_requested_resource` and compares an empty string, so every GET is
  answered with 505 and the headers are never read (`HeadersNeverRead`). Since none of its error responses has
  a header line, no response of this service ever reaches the callback of `HttpRequest` (`NoRequestSucceeds`).
* `ProcessRequest` answers 404 when the file exists. `ResourceDelivered` is about its remaining branch.
* The text for status 413 says 431, and that is what a client would parse (`StatusTextParts`).
* `HttpRequest::OnFinish` drops the callback on an error, although `Handler` in `005_http/main.cpp` expects to
  be told (`FinishesOnce`: the callback runs exactly when there was no error).
* The header loop does not end on every input. `TerminatesIff` says exactly when it does, and `FinishesOnce` what
  that means for a request.
* What `HttpRequest` makes of a byte stream can depend on the pieces in which it arrives. `CutsAgreeIff` says
  exactly for which streams it does not; `StrayCrDependsOnPieces` and `StatusLineDependsOnPieces` give streams
  for which it does, the second one without any stray CR: if words are missing in the first line, `>>` takes them
  from the next lines, as far as these have arrived.
* A second cancel of one session can deadlock the client (`SecondCancelCanDeadlock`), and reusing the id of a
  live session makes that session unreachable for cancels (`ReusedIdLosesSession`).
* A session that is started before `Close` can be left without a callback, if its connect is started after the
  io_service has run out of work (`LateSessionGetsNoCallback`). `CloseDrains` says exactly which sessions get one.

## Model

| member | source | states |
|---|---|---|
| AsyncTcpClientInvariant.InvKept | 003_client/003_async_tcp_client.cpp:55-177 | every step of every thread keeps the lock ownership, the place of each session, the map entries and the count of outstanding work |
| AsyncTcpClientInvariant.ReachesInv | 003_client/003_async_tcp_client.cpp:55-177 | so does every run, from a new client with any number of threads |
| AsyncTcpClientTheorems.CancellationLinearizes | 003_client/003_async_tcp_client.cpp:135-177 | the one callback of a session reports an error iff an operation failed or a cancel found the session in the map, even with reused ids; the cancel is reported as aborted; success means connect, write and read succeeded in that order |
| AsyncTcpClientAnswers.CallbackReportsTheFailure | 003_client/003_async_tcp_client.cpp:85-176 | the one callback reports the error with which the session's failed operation completed; if none failed it reports aborted exactly when a cancel found the session, and success otherwise |
| AsyncTcpClientTheorems.ErasedIsOutOfReach | 003_client/003_async_tcp_client.cpp:161-174 | once erased, no cancel in any continuation finds the session or changes its flag |
| AsyncTcpClientTheorems.CancelOfNothing | 003_client/003_async_tcp_client.cpp:135-144 | in every interleaving, as long as a cancel finds nothing no step of it changes a session, the map or the operations, and no other thread changes the map while it holds the map lock |
| AsyncTcpClientTheorems.DeadlockIffCircular | 003_client/003_async_tcp_client.cpp:94-161 | some threads wait for each other's locks iff a cancel with the map lock and a cancelled handler with the session's lock wait for each other |
| AsyncTcpClientTheorems.CircularWaitNeedsTwoFinds | 003_client/003_async_tcp_client.cpp:94-161 | in every run that circular wait needs a session that two cancels have found |
| AsyncTcpClientTheorems.DeadlockFree | 003_client/003_async_tcp_client.cpp:94-161 | if each session is found by at most one cancel, no set of threads is deadlocked |
| AsyncTcpClientTheorems.CircularWaitIsForever | 003_client/003_async_tcp_client.cpp:135-152 | once there, the circular wait stays in every continuation: that session's callback never runs and `Close` never returns |
| AsyncTcpClientTheorems.Progress | 003_client/003_async_tcp_client.cpp:81-177 | without the circular wait, while any thread is inside a call or handler, some thread can take its next step |
| AsyncTcpClientTheorems.ClosingGoesOn | 003_client/003_async_tcp_client.cpp:146-152 | while `Close` joins and there is no circular wait, a step that is not a new call is possible |
| AsyncTcpClientClosing.NoCallsBounded | 003_client/003_async_tcp_client.cpp:66-177 | every step but a new call lowers a bound, so runs without new calls are finite |
| AsyncTcpClientClosing.CloseReturns | 003_client/003_async_tcp_client.cpp:146-152 | once `Close` joins, every run without new calls has bounded length, and where it can go no further `Close` has returned iff there is no circular wait |
| AsyncTcpClientTheorems.SessionsConserved | 003_client/003_async_tcp_client.cpp:85-177 | each session is in exactly one place: an operation in flight, the hands of exactly one thread, or delivered by exactly one callback |
| AsyncTcpClientAnswers.CallbackDeliversTheLine | 003_client/003_async_tcp_client.cpp:117-127 | the one callback delivers the line with which the session's own read completed, or the empty string if none did; with success there always is such a line |
| AsyncTcpClientTheorems.CloseDrains | 003_client/003_async_tcp_client.cpp:146-152 | when `Close` returns with a thread in the pool, a session has had its one callback iff its connect was started before the io_service stopped, and otherwise none; no session with a callback is left in the map |
| AsyncTcpClientTheorems.StartedBeforeClose | 003_client/003_async_tcp_client.cpp:146-152 | a session whose starting call has returned before `Close` is called has had its one callback when `Close` returns, with a thread in the pool |
| AsyncTcpClientTheorems.LateSessionIsLost | 003_client/003_async_tcp_client.cpp:85-87 | a session that is not connected when the io_service stops gets no callback in any continuation and is never erased |
| AsyncTcpClientTheorems.NoPoolNoCallback | 003_client/003_async_tcp_client.cpp:55-64 | the hypothesis is needed: without pool threads no session is ever erased or delivered |
| AsyncTcpClientTheorems.EntriesAreLive | 003_client/003_async_tcp_client.cpp:81-83 | whatever the ids, an entry leads to a registered, not yet erased session with the entry's id |
| AsyncTcpClientTheorems.MapIsTheLiveSessions | 003_client/003_async_tcp_client.cpp:161-167 | the map is exactly the live sessions in every state of a run iff no two live sessions share an id in any of its states |
| AsyncTcpClientWitnesses.SecondCancelCanDeadlock | 003_client/003_async_tcp_client.cpp:94-142 | a run with two cancels of one session ends in the circular wait |
| AsyncTcpClientWitnesses.SecondCancelDeadlocks | 003_client/003_async_tcp_client.cpp:94-142 | from every state in which a session of the map is flagged, its connect or write is in flight, the locks are free, and a user and a pool thread are idle, a second cancel can lead into the circular wait |
| AsyncTcpClientWitnesses.ReusedIdLosesSession | 003_client/003_async_tcp_client.cpp:161-167 | a run with a reused id in which the map loses a session whose connect is still in flight |
| AsyncTcpClientWitnesses.LateSessionGetsNoCallback | 003_client/003_async_tcp_client.cpp:81-152 | a run in which a session is started before `Close`, `Close` has returned, and the session stays in the map without a callback in every continuation |
| Asio.ReadUntilOutcome | 005_http/http_service.cpp:14-17 | no byte is lost or duplicated, and the outcome of a read depends on the whole stream and the buffer limit, not on the pieces |
| Streams.ReadTokenIs | 005_http/http_request.cpp:105-114 | a word that ends at white space is read as it stands and the rest stays in the stream |
| Streams.StoulOfToDecimal | 005_http/http_service.cpp:129-130 | printing a number below 2^64 and converting it back gives the number |
| Streams.StoulSigned | 005_http/http_request.cpp:118-124 | a sign is taken into account, what follows the digits is not, and a number of 2^64 or more is an exception |
| HeaderLoop.TurnOnGoodStream | 005_http/http_request.cpp:147-166 | a turn leaves the loop, or fails the stream for good, or shortens the buffer, each exactly as the CR-by-CR scan says |
| HeaderLoop.StuckForever | 005_http/http_request.cpp:147-166 | on a failed stream with a non-empty segment every turn repeats the last one |
| HeaderLoop.LoopEndsIffScanStops | 005_http/http_request.cpp:147-166 | the loop is left within as many turns as there are characters iff the scan stops, with the scan's headers and rest; otherwise it never is |
| HeaderLoop.TerminatesIff | 005_http/http_request.cpp:147-166 | the loop terminates iff the CR-by-CR walk over the bytes meets an empty segment or ends just after a consumed segment |
| HeaderLoop.ClosedScan | 005_http/http_request.cpp:147-166 | after an empty segment the loop leaves all further bytes where they are |
| HeaderLoop.ExhaustedScan | 005_http/http_request.cpp:147-166 | without one it goes on into whatever has arrived behind, with the headers and the name it has |
| HeaderLoop.LoopFoldsLines | 005_http/http_request.cpp:147-166 | on CRLF-separated lines and a blank line the loop stops just after the blank line and stores the fold of the lines |
| HeaderLoop.FoldLastWins | 005_http/http_request.cpp:153-165 | for each name the last line stored under it wins, a line without a colon counting for the name above it; its value is what follows its first colon, and empty if it has none; other names keep their value |
| HttpRequest.StatusLineParses | 005_http/http_request.cpp:101-130 | `HTTP/1.1 code text` is parsed up to its CRLF, whatever follows; the space stays with the text, and a code that is no number is an invalid response |
| HttpRequest.OtherVersionRefused | 005_http/http_request.cpp:105-112 | another version is refused, and just that word is taken out of the buffer |
| HttpRequest.StatusLineExtends | 005_http/http_request.cpp:101-127 | a status line that is good by itself is parsed in the same way whatever follows it, and what follows stays in the buffer |
| HttpRequest.BadLineExtends | 005_http/http_request.cpp:107-124 | a first line with a wrong version or a code that is no number is bad whatever follows it |
| HttpRequest.FinishesOnce | 005_http/http_request.cpp:5-189 | after one Execute with a port, host, URI and callback, for every order of completions and cancels: after six completions nothing is in flight, and when nothing is in flight OnFinish has run exactly once unless the header loop got bytes on which it hangs; the callback runs at most once, iff there was no error, and after all six stages; a request cancelled before ends as aborted at once |
| HttpRequest.CompletionEnds | 005_http/http_request.cpp:35-180 | at any moment of any run and whatever follows: eof of the body is success with the body delivered; before, an error is reported as it is, cancelled or not; without one a cancelled request ends as aborted with nothing printed or started; a bad status line is an invalid response |
| HttpRequest.ResolvedAndConnected | 005_http/http_request.cpp:54-78 | an uncancelled request whose name resolution and connect succeed passes both |
| HttpRequest.HungIff | 005_http/http_request.cpp:137-166 | a request hangs iff some header read succeeds before a cancel with bytes that have no empty segment and do not end just after a segment |
| HttpRequest.CancelStopsCallback | 005_http/http_request.cpp:26-43 | a cancel at any moment before the body is being read stops the callback, whatever happens afterwards |
| HttpRequest.LateCancelIsIgnored | 005_http/http_request.cpp:172-180 | a cancel once the body is being read changes nothing but the flag: every continuation, and the callback, is as without it |
| HttpRequest.HttpMessage.SetStatusCode | 005_http/http_message.hpp:27-29 | only the status code changes |
| HttpRequest.HttpMessage.SetStatusMessage | 005_http/http_message.hpp:31-33 | only the status message changes |
| HttpRequest.HttpMessage.AddHeader | 005_http/http_message.hpp:35-37 | the value of the name is inserted or replaced, and nothing else changes |
| HttpRequest.HttpRequest.constructor | 005_http/http_request.hpp:15-24 | a new request is the starting point of `FinishesOnce` |
| HttpRequest.HttpRequest.Execute | 005_http/http_request.cpp:5-24 | throws iff the port is 0, the host or the URI is empty, or there is no callback, and then changes nothing; otherwise starts the resolution, or finishes as aborted |
| HttpRequest.HttpRequest.Cancel | 005_http/http_request.cpp:26-33 | only the flag changes |
| HttpRequest.HttpRequest.IsCancelled | 005_http/http_request.cpp:35-43 | finishes the request as aborted iff the flag is set |
| HttpRequest.HttpRequest.OnError | 005_http/http_request.cpp:45-51 | finishes the request iff there was an error |
| HttpRequest.HttpRequest.OnFinish | 005_http/http_request.cpp:182-189 | runs the callback iff there was no error |
| HttpRequest.HttpRequest.OnHostNameResolved | 005_http/http_request.cpp:54-63 | refines the completion of the resolve stage |
| HttpRequest.HttpRequest.OnConnectionEstablished | 005_http/http_request.cpp:65-78 | refines the completion of the connect stage; the request text is appended |
| HttpRequest.HttpRequest.OnRequestSent | 005_http/http_request.cpp:80-92 | refines the completion of the send stage |
| HttpRequest.HttpRequest.OnStatusLineReceived | 005_http/http_request.cpp:94-135 | refines the completion of the status line read; the words read are taken out of the message buffer, and the surplus stays in it |
| HttpRequest.HttpRequest.ReadHeaderLines | 005_http/http_request.cpp:144-166 | the loop with its reused variables leaves exactly when the scan stops, with the scan's headers and rest |
| HttpRequest.HttpRequest.OnHeadersReceived | 005_http/http_request.cpp:137-170 | refines the completion of the header read |
| HttpRequest.HttpRequest.OnResponseBodyReceived | 005_http/http_request.cpp:172-180 | refines the completion of the body read: eof is success |
| HttpReceive.StatusRead | 005_http/http_request.cpp:89-135 | however the stream is cut, what follows the status line is in the buffer or still to come |
| HttpReceive.HeadersRead | 005_http/http_request.cpp:132-170 | however it is cut, the header lines are folded and what follows the blank line is the body, in the buffer or still to come |
| HttpReceive.ResponseReceived | 005_http/http_request.cpp:94-180 | every response with a status line and a header line is delivered as what it says at eof, and not at all with a bad code or another error |
| HttpReceive.RunRead | 005_http/http_request.cpp:89-180 | the object's handler after a read of the connection does what the model of that step does |
| HttpReceive.RunReads | 005_http/http_request.cpp:89-180 | driven by the connection until nothing is in flight, the object ends in the state `Receive` computes |
| HttpSegmentation.Decompose | 005_http/http_request.cpp:94-170 | every byte stream with an `HTTP/1.1 code` first line, a header line, a blank line and CR only in CRLF up to there is a status line, header lines, a blank line and a body |
| HttpSegmentation.SegmentationIndependent | 005_http/http_request.cpp:94-180 | two ways of cutting such a stream give the same outcome, code, message, headers and body, and the body is what follows the first blank line |
| HttpSegmentation.HeadersDelivered | 005_http/http_request.cpp:147-166 | a response with any header lines, in any pieces, is delivered with exactly the names of its lines, and under each the value of the last line stored under it, empty for a line without a colon |
| HttpCuts.CutsAgreeIff | 005_http/http_request.cpp:94-170 | for every byte stream, ended by eof or by an error: all ways of cutting it lead to the same calls of OnFinish, callbacks and hangs iff it has no first line, or a bad first line that has its two words or is in a stream whose first two words are not the version and the start of a number, or a good first line behind which there is no blank line, or an empty segment by the first blank line, or nothing after it, or, if the stream fails, a CR after it |
| HttpFirstLine.BadThroughoutIff | 005_http/http_request.cpp:105-124 | a first line that is bad by itself stays bad whatever arrives with it iff it has its two words, or the first two words of the stream are not the version and the start of a number |
| HttpCuts.WellFormedIsIndependent | 005_http/http_request.cpp:94-170 | every response that keeps to the grammar is such a stream |
| HttpCuts.RefusedLineIsIndependent | 005_http/http_request.cpp:107-124 | so is every stream whose first line has a wrong version or a code that is no number |
| HttpCuts.LateCode | 005_http/http_request.cpp:105-119 | for every code and text, a first line that ends after the version takes its code from the next line if that has arrived |
| HttpCuts.StatusLineDependsOnPieces | 005_http/http_request.cpp:105-127 | a stream with CR only in CRLF that is refused in two pieces and a response with status 200 in one |
| HttpCuts.StrayCrDependsOnPieces | 005_http/http_request.cpp:144-166 | a stream with a stray CR that hangs the client when it comes at once and is delivered when it is cut behind the blank line |
| HttpSegmentation.PrintedHeadersFold | 005_http/http_request.cpp:147-166 | the lines of a list of distinct headers fold to exactly these headers |
| HttpSegmentation.RoundTrip | 005_http/http_request.cpp:101-168 | a printed response, in any pieces, is parsed back to its code, text with the separating space, headers verbatim and body |
| HttpSegmentation.NoHeaderLineNoCallback | 005_http/http_request.cpp:126-142 | a response without a header line, or cut off, ends with the stream's error and no callback |
| HttpService.Run | 005_http/http_service.cpp:5-38 | in every run the status is a key of the table, exactly one of an operation in flight and a delete holds, and at most one response is sent |
| HttpService.DeletesItself | 005_http/http_service.cpp:133-169 | after three completions at most the object has deleted itself exactly once, with nothing in flight and at most one response sent |
| HttpService.LineReceived | 005_http/http_service.cpp:51-54 | the extracted line is the stream up to its first CR, however it was cut |
| HttpService.RequestLineAnswer | 005_http/http_service.cpp:56-75 | the answer is a bare 501 unless the first word is GET, and then a bare 505 |
| HttpService.RequestLineOutcome | 005_http/http_service.cpp:45-79 | for every byte stream in any pieces: the text for 413 iff 4096 bytes arrive without CRLF, nothing if the stream ends before, else the text for 501 unless the first word is GET, else that for 505, each as the bytes on the wire |
| HttpService.RestKept | 005_http/http_service.cpp:51-54 | what follows the line end stays in the buffer or is still to come, however the stream was cut |
| HttpService.ResourceOfShortLines | 005_http/http_service.cpp:66-69 | with less than three words the resource is the word behind GET, and unchanged if there is none |
| HttpService.HeadersOutcome | 005_http/http_service.cpp:83-154 | what the handler of the headers would answer: 413 for a full buffer, nothing for another error, else 404 if the file exists, 500 if it does not open, and else the file behind its length, each as the bytes on the wire |
| HttpService.HeadersNeverRead | 005_http/http_service.cpp:68-79 | no run gets past the request line, and every response is one of the three bare errors |
| HttpService.HttpService.constructor | 005_http/http_service.hpp:12-14 | a new service has status 200, no resource and nothing in flight |
| HttpService.HttpService.StartHandling | 005_http/http_service.cpp:14-17 | starts reading the request line |
| HttpService.HttpService.OnErrorWithRes | 005_http/http_service.cpp:19-38 | answers the one given error, and deletes the object on every other |
| HttpService.HttpService.OnRequestLineReceived | 005_http/http_service.cpp:45-79 | refines the completion of the request line read |
| HttpService.HttpService.CheckVersion | 005_http/http_service.cpp:71-78 | 505 unless the version is `HTTP/1.1` |
| HttpService.HttpService.OnHeadersReceived | 005_http/http_service.cpp:83-105 | refines the completion of the header read |
| HttpService.HttpService.ProcessRequest | 005_http/http_service.cpp:107-131 | 404 if the file exists, 500 if it does not open, else the file's bytes and a content-length line |
| HttpService.HttpService.SendResponse | 005_http/http_service.cpp:133-154 | sends status line, headers, blank line and resource, in that order, as one response |
| HttpService.HttpService.OnResponseSent | 005_http/http_service.cpp:156-165 | deletes the object, with or without an error |
| HttpService.HttpService.OnFinish | 005_http/http_service.cpp:167-169 | one delete, after which no other method may be called |
| HttpService.HttpService.ReadRequestHeaders | 005_http/http_service.cpp:89-99 | the loop uses up the buffer and stores the fields `ReadFields` finds in it |
| HttpService.RunService | 005_http/http_service.cpp:14-169 | the object driven by any completions ends in the state `Run` computes, and nothing is called after its delete |
| HttpService.ServeConnection | 005_http/http_service.cpp:14-79 | a new object on a connection is, after its first handler, in the state `RequestLineOutcome` speaks of |
| HttpExchange.RequestLineWords | 005_http/http_request.cpp:72 | the three words of a printed request line are method, URI and `HTTP/1.1` |
| HttpExchange.PrintedRequestAnswered | 005_http/http_service.cpp:45-79 | the request `HttpRequest` prints, in any pieces: 505 and the version as the resource for GET, else 501 |
| HttpExchange.RequestPrinted | 005_http/http_request.cpp:65-78 | in every run the request buffer is empty until the connect succeeds, and then holds the line of verb, URI and `HTTP/1.1`, just the header `Host` with the host as its value, and a blank line |
| HttpExchange.PrintedVersionWouldDo | 005_http/http_service.cpp:66-79 | had the third word been read into the version, the printed request would be accepted |
| HttpExchange.RequestHeadersRead | 005_http/http_service.cpp:89-99 | on printed headers the header loop of `HttpService` stores what the loop of `HttpRequest` stores |
| HttpExchange.ResourceText | 005_http/http_service.cpp:122-154 | the bytes sent after the successful branch are the print of status 200, one content-length header and the resource |
| HttpExchange.ResourceDelivered | 005_http/http_service.cpp:122-154 | in any pieces they arrive as status 200, exactly one header, whose number is the body's length, and the resource as body |
| HttpExchange.StatusTextParts | 005_http/http_service.cpp:5-12 | every text of the table is a code and a message; the code is the key, except 431 for 413 |
| HttpExchange.BareErrorNotDelivered | 005_http/http_request.cpp:126-142 | a response sent without a header line, whole or in part, never runs the client's callback |
| HttpExchange.NoRequestSucceeds | 005_http/http_service.cpp:45-79 | whatever the service as written receives, the client that reads what it sends never runs its callback |
| AsyncServer.AcceptStopProtocol | 004_server/002_async_tcp_server.cpp:84-114 | in every interleaving: until the close exactly one accept is in flight or being handled; closed means stopped with nothing left; after the stop at most one service and one accept |
| AsyncServer.OneServicePerConnection | 004_server/002_async_tcp_server.cpp:99-106 | in every run a service is created for each accepted connection and for nothing else, but for the one whose handler has not come that far |
| AsyncServer.ClosedIsFinal | 004_server/002_async_tcp_server.cpp:108-113 | after the close nothing changes any more: no accept starts and no service is created |
| AsyncServer.OneServiceAfterStop | 004_server/002_async_tcp_server.cpp:84-114 | the bound of one service after the stop is reached |
| AsyncServer.OneAcceptAfterStop | 004_server/002_async_tcp_server.cpp:108-110 | the bound of one accept after the stop is reached |
| AsyncServer.ServiceDeletesItself | 004_server/002_async_tcp_server.cpp:17-53 | exactly one of an operation in flight and a delete at all times, deleted after two completions, the response `Response` and a newline iff the read succeeded |
| AsyncServer.Service.StartHandling | 004_server/002_async_tcp_server.cpp:17-23 | starts the read |
| AsyncServer.Service.OnRequestReceived | 004_server/002_async_tcp_server.cpp:26-41 | refines the completion of the read: deletes the object on an error, else sends the response |
| AsyncServer.Service.OnResponseSent | 004_server/002_async_tcp_server.cpp:43-49 | deletes the object, with or without an error |
| AsyncServer.Service.OnFinish | 004_server/002_async_tcp_server.cpp:51-53 | one delete, after which no other method may be called |
| AsyncServer.RunService | 004_server/002_async_tcp_server.cpp:17-53 | the object driven by any completions ends in the state `Run` computes, and nothing is called after its delete |
| HalfClose.ExchangeCompletes | 002_io/007_shutdown_client.cpp:6-27 | for all messages and any capacity of at least one byte: never stuck, bounded length, prefixes throughout, and at the end each side has exactly the other's bytes before eof |
| Transfer.WriteToSocket | 002_io/004_buffer_write.cpp:6-19 | whatever the short counts, the bytes written are a prefix of the buffer, once and in order, and all of it unless an operation fails; an error is thrown iff one operation failed, and it is that operation's |
| Transfer.ReadFromSocket | 002_io/005_buffer_read.cpp:6-19 | the buffer is filled with the next bytes of the stream, and unless another error is thrown it is filled iff that many come before the end; an error is thrown iff one operation failed, and it is that operation's; what came before it is in the buffer |
| Transfer.WriteSession.Callback | 002_io/004-2_buffer_write_async.cpp:13-36 | adds the count, and re-arms iff there was no error and bytes are left |
| Transfer.WriteToSocketAsync | 002_io/004-2_buffer_write_async.cpp:38-49 | the callback chain writes what the loop writes, also when an operation fails, and ends |
| Transfer.ReadSession.Callback | 002_io/005-2_buffer_read_async.cpp:13-31 | adds the count, and re-arms iff there was no error and room is left |
| Transfer.ReadFromSocketAsync | 002_io/005-2_buffer_read_async.cpp:33-48 | the callback chain reads what the loop reads, also when an operation fails, and ends |
| Transfer.ReaderFollowsWriter | 002_io/005-2_buffer_read_async.cpp:13-48 | a writer chain and a reader chain joined by a FIFO, in every interleaving and with errors: the filled part is a prefix of the writer's buffer, no byte is lost, no total passes its length, and equal lengths give equal buffers |
| Transfer.TransferCompletes | 002_io/004-2_buffer_write_async.cpp:13-49 | no run of the joined chains is longer than a bound; without errors some operation can complete until both sides are done, if the reader's buffer is no longer than the writer's, and then everything is written and the reader's buffer is full |

## Left out

- `AsyncTcpClient`, `Acceptor` and the half-close programs are state machines on values, not classes: their
  methods run interleaved, which a sequential method cannot express. Aliasing of the shared session pointer
  appears as the session's index.
- AsyncServer.ServiceDeletesItself: only for runs whose operations complete; `Server::Stop` calls
  `m_ios.stop()`, which abandons services in flight.
- The text of the client's request (`003_client/003_async_tcp_client.cpp:73-74`), the request id passed to its
  callback, and how its read line is taken from the stream: a read completes with a line or an error.
- Sockets, name resolution, the file system and timing are inputs or nondeterministic; console output, ids,
  getters and setters of `HttpRequest` are not modelled, and `HttpClient`, `HttpServer` and their acceptors in
  `005_http` only create objects. The status code of a new `HttpMessage`, which the source does not
  initialise, is 0.
- Data races in the sense of the C++ memory model, exceptions of `shutdown`, and memory reclamation.
- `001_basic`, the single-call demos of `002_io`, the synchronous clients and servers, and `006_ssl`:
  straight-line calls of the library.
