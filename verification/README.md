# A verified model of an epoll web server

The server accepts HTTP/1.1 requests on non-blocking sockets, parses them incrementally in a fixed buffer,
answers with a file or an error page through `writev`, closes idle connections with a sorted timer list, and
hands the work to a pool of threads that share a pool of MySQL connections. This project models those four
parts and proves what they promise, and, where the code does not keep a promise, exactly when it does.

**Requests.** `Request.dfy` says on values what each parser function and one call of `read_process` does.
`SplitIndependence.dfy` settles how TCP may cut a request: before the body every cut is harmless; strictly
inside a body that ends the stream a cut is harmless if and only if the line scanner, which `read_process` wrongly
runs over an incomplete body, cannot move. `BodyScanning.dfy` follows the scanner through the body and says,
whatever bytes come after it, when the request is answered, with which text as its body, and when that is the
answer a single `recv` would get. `RequestRoundTrip.dfy` prints requests after RFC 9112, sections 3 and 5, and shows
that reading recovers every part; `LineSplitting.dfy` shows that the scanner loses no byte. `Routing.dfy` is
`do_respone`: URL to file, and the accounts that forms register and use.

**Responses.** `Response.dfy` is the bounded append buffer and `write_process`; `PrinterParser.dfy` lets the
server's own parser read the server's own headers; `VectoredWrite.dfy` is `write` over any run of short writes,
EAGAIN and EINTR. `Serving.dfy` joins the parts into `do_process` and follows whole exchanges: a GET answered
byte for byte, a login over the wire. `LeftOver.dfy` settles when the form of an earlier request decides a later
one. `Sessions.dfy` follows request after request on a kept connection, `NotKept.dfy` what happens on one that is
not reset. `HttpConn.dfy` is the class itself, with its two buffers, cursors and
fields updated in place; every method is proved against the functions above.

**Timers.** `TimerQueue.dfy` is the abstract queue; `TimerRuns.dfy` shows that it is a stable priority queue over
every run of additions, raised expiries, deletions and ticks. `TimerList.dfy` is the doubly linked list with its
pointer surgery, which carries the run it has been through; `Reaper.dfy` is the idle reaper, a run with a clock,
and `IdleTimers.dfy` the part of `WebServer` that drives it.

**Threads.** `Reactor.dfy` is a system of steps: the main thread, any number of workers, the request queue, both
semaphores, the flags `_improv` and `_timer_flag`, and the MySQL pool. `WorkQueue.dfy` is the request queue under
any number of producers. `Pools.dfy` has the two pools as objects whose atomic sections are those steps.
`Counting.dfy` and `CText.dfy` hold the counting lemmas and the C library's text functions.

## What was found

- A cut strictly inside a body that starts with neither CR nor LF leaves the connection waiting for ever
  if the stream ends with the body (`CutInsideBodyIsNeverAnswered`; a concrete request in `CutInsideBodyExample`);
  `SplitExactly` has the exact condition. If more bytes follow, `AnsweredExactlyWhen` says when they end the wait and
  which text is then taken for the body, and `SameAsOneReceive` when that is what a single `recv` gives: the scanner
  must not be able to move when the last byte of the body comes, or at least the text must be the same, as it is
  in `CutInsideBodyThenMore` and `CutThenMoreExample` although the cut lets the scanner move.
- With a negative Content-Length the body is whatever text had arrived by the end of the chunk that completed the
  headers (`NegativeLengthTakesWhatArrived`), so there the chunks matter unless no more text comes. The same bytes
  give two bodies in `NegativeLengthInTwoChunks`, concretely in `NegativeLengthExample`.
- A login or registration whose Content-Length is 0 or missing is decided by the form that an earlier request left
  in the object, since `_init` does not clear it; that request may have come from another client on the same
  descriptor. For such a form request what was left over is without effect that can be seen if and only if the length
  is not 0, and for every other request always (`FormIsItsOwn`). With fewer
  than five bytes left over the program dies of an uncaught exception (`LoginIsServed`, `RegistrationIsServed`), as
  a login without a body on a new object does (`LoginWithoutBodyExample`).
- `adjust_timer` leaves a cycle if and only if the node is neither first nor last and no other node expires later
  (`SortTimerList.AdjustTimer`). With a clock that does not go back, activity on any timer that is neither first
  nor last does that, and no other activity does (`WebServer.AdjustTimer`; three connections and one read in
  `EndlessListExample`). From then on the search for the place of any new connection never ends
  (`SearchNeverEnds`). The repaired form adds `timer->_next = nullptr` to the middle branch.
- `adjust_timer` looks only at the next node. If an expiry is lowered, by a clock set back, the list is in order
  afterwards if and only if no earlier node expires later (`AdjustInOrder`, `LoweredExample`; two connections and a
  clock set back in `ClockSetBackExample`).
- A response without keep-alive is not followed by `_init`, and the connection stays open. A next request is then read
  as header lines and answered for the URL of the first (`AnsweredAgain`, `SecondRequestGetsTheFirst`), behind the
  old text in the buffer; after a request with a body any single byte repeats it, form and all
  (`FormDealtWithAgain`). A kept connection serves each request as a new one would (`KeptIsFresh`).
- `write` updates its vectors rightly for the first short write of a response and for no later one. A response that
  finishes went out right if and only if there was at most one (`AtMostOneShortWrite`), which the kernel's replies
  alone decide (`RepliesDecide`). With the page for a refused request, `TwoShortWritesExample` skips a byte and then
  stops at the assertion. With offsets taken from `_write_idx` any number is right (`AnyNumberOfShortWrites`).
- Content-Length is true if and only if the size fits in an `int` (`ContentLengthIsTrue`), and so is the counter
  of bytes to send (`ResponseIsFramed`); for a file of 2^31 bytes both are negative (`TooLargeExample`), and the first
  bytes that go out finish the response (`OverflowFinishesEarly`).
- In edge-triggered mode a request that fills the buffer is taken for a closed peer (`ReceivesUntilFull`).
- A form of fewer than five bytes makes `do_respone` throw, and no other does (`NoSlashIsUnreachable`).
- BAD_REQUEST is answered with status 404 and not with the 400 texts that the file defines; NO_RESOURCE is not
  answered at all: `write_process` returns false and the connection is closed. The model follows the code.
- `parse_request_line` is commented as splitting at spaces and tabs; it splits at spaces only.

## Model

| member | source | states |
|---|---|---|
| `HttpConn.HttpConn.ParseLine` | common/http/Http.cpp:154-182 | scanning in place, with CRLF overwritten, is the scan of the received bytes: same status, same cursor |
| `HttpConn.HttpConn.Tokenize` | common/http/Http.cpp:263-268 | the `getline` loop splits at spaces, keeps inner empty words and drops a trailing one |
| `HttpConn.HttpConn.ParseRequestLine` | common/http/Http.cpp:259-328 | method, version, URL and state after a request line, and which fields stay set when it is refused |
| `HttpConn.HttpConn.ExtractUrl` | common/http/Http.cpp:300-323 | scheme and host are dropped, "/" is completed, no slash is refused |
| `HttpConn.HttpConn.ParseHeaders` | common/http/Http.cpp:373-413 | one header line or the blank line: the fields it sets and whether the request is complete |
| `HttpConn.HttpConn.ParseContent` | common/http/Http.cpp:415-425 | the body is taken when it has arrived; a sum that overflows and a terminator outside the buffer are an outcome of their own |
| `HttpConn.HttpConn.MainLoop` | common/http/Http.cpp:561-597 | the resumable loop, with termination, computes `read_process` on the received bytes and keeps the cursors ordered within the buffer |
| `HttpConn.HttpConn.ReadProcess` | common/http/Http.cpp:555-599 | the answer's code and all fields, from any state, whatever do_respone decides |
| `HttpConn.ReceivesUntilNothing` | common/http/Http.cpp:222-255 | the edge-triggered loop: all bytes in order, and the return value by the first call that brings none |
| `HttpConn.ReceivesUntilFull` | common/http/Http.cpp:222-255 | more than there is room for: the buffer is filled, and the full buffer is then taken for a closed peer |
| `HttpConn.HttpConn.ReadOnceLevel` | common/http/Http.cpp:190-219 | one `recv`: what is stored, the return value, and the refusal when the buffer is full |
| `HttpConn.HttpConn.ReadOnceEdge` | common/http/Http.cpp:222-255 | the edge-triggered loop stores what all its `recv` calls deliver, and returns by its last one |
| `HttpConn.HttpConn.Init` | common/http/Http.cpp:39-68 | a connection ready for the next request, with no MySQL connection, `_io_state` READ, both flags down and the output buffer zeroed; its strings, the left-over form and the users are kept |
| `HttpConn.HttpConn.DoRespone` | common/http/Http.cpp:428-552 | code, file, URL and users for a complete request, and when an exception escapes |
| `HttpConn.HttpConn.HandleForm` | common/http/Http.cpp:440-496 | registration enters a new name whatever the SQL result; login compares passwords |
| `HttpConn.HttpConn.AddResponse` | common/http/Http.cpp:682-698 | all of the text is appended within bounds, or the committed text stays as it was; what `vsnprintf` stores either way |
| `HttpConn.HttpConn.AddHeaders` | common/http/Http.cpp:704-724 | the three appends in order, stopping at the first that fails |
| `HttpConn.HttpConn.WriteProcess` | common/http/Http.cpp:729-804 | text, vectors and counter for every code |
| `HttpConn.HttpConn.SendLoop` | common/http/Http.cpp:621-680 | the `writev` loop: what goes out, in order, and the vectors and counters it leaves |
| `HttpConn.HttpConn.Write` | common/http/Http.cpp:608-681 | the whole of `write`, with the reset (and no other change of the worker's fields) when nothing is left or the connection is kept |
| `HttpConn.HttpConn.DoProcess` | common/http/Http.cpp:19-36 | parser, router and response builder in one step |
| `CText.CaseIsIgnored` | common/http/Http.cpp:279-308 | `strcasecmp`: equal but for the case of letters, and nothing else |
| `CText.AtoiReads` | common/http/Http.cpp:394-399 | `atoi`: spaces, one sign, digits up to the first other character |
| `CText.AtoiOfTooLarge` | common/http/Http.cpp:394-399 | numbers that do not fit: saturated at 64 bits, low 32 bits kept |
| `SplitIndependence.ScanExactly` | common/http/Http.cpp:154-182 | status and place of the scanner, by the first CR or LF |
| `SplitIndependence.HeadMore` | common/http/Http.cpp:561-585 | lines and headers: stopping early and going on later is the same as seeing all bytes at once |
| `SplitIndependence.SplitIndependent` | common/http/Http.cpp:555-599 | any chunks that do not stall give the answer, fields and cursors of a single `recv` |
| `SplitIndependence.SplitExactly` | common/http/Http.cpp:415-425 | a request whose body ends the stream is answered, as in a single `recv`, if and only if no cut stalls; otherwise it waits for ever |
| `SplitIndependence.StallIsFinal` | common/http/Http.cpp:586-592 | after a stalling cut the answer stays NO_REQUEST although everything has arrived |
| `SplitIndependence.NegativeLengthTakesWhatArrived` | common/http/Http.cpp:417-422 | with a negative Content-Length, exactly which bytes are taken for the body, in any chunks and in one |
| `SplitIndependence.BodyText` | common/http/Http.cpp:415-425 | an arrived body is the announced number of bytes, up to a NUL |
| `BodyScanning.BodyRuns` | common/http/Http.cpp:561-592 | one call on a body that is not there in full: NO_REQUEST and how far the scanner gets, or the overflow of length and cursor at the end of some line |
| `BodyScanning.ScanAllMore` | common/http/Http.cpp:148-182 | the scanner goes on from where it stopped: its place depends on the bytes so far alone |
| `BodyScanning.AnsweredExactlyWhen` | common/http/Http.cpp:555-599 | with any bytes after the body, in any chunks: answered if and only if some chunk ends at least the announced length after the place where the scanner stood when it came; and which text is then the body, with fields and cursors |
| `BodyScanning.SameAsOneReceive` | common/http/Http.cpp:555-599 | with any bytes after the body: when answer, fields and cursors are those of a single `recv`, and when answer and fields are |
| `LineSplitting.LinesAreTheBytes` | common/http/Http.cpp:148-182 | the lines handed out, each with CRLF, are exactly the bytes consumed, and none holds CR or LF |
| `LineSplitting.HandedOut` | common/http/Http.cpp:563-570 | the C string given to a parser is the line as received, up to a NUL |
| `RequestRoundTrip.RequestLineAccepted` | common/http/Http.cpp:259-328 | accepted are exactly the lines of three acceptable words |
| `RequestRoundTrip.RefusedLineFields` | common/http/Http.cpp:263-328 | which fields a refused request line leaves set |
| `RequestRoundTrip.MeaningAfterReset` | common/http/Http.cpp:39-68 | the first request after a reset: not kept, no form and no body unless it says so |
| `RequestRoundTrip.HeaderLineExamples` | common/http/Http.cpp:385-411 | six header lines, letter by letter |
| `RequestRoundTrip.TargetForms` | common/http/Http.cpp:300-323 | origin-form and absolute-form of one path give one URL (RFC 9112, sections 3.2.1 and 3.2.2) |
| `RequestRoundTrip.OneMoreHeader` | common/http/Http.cpp:385-412 | the parser reads a header list as: any keep-alive, last Host, last Content-Length |
| `RequestRoundTrip.HeadReadsRequest` | common/http/Http.cpp:561-585 | the printed request line and headers are read as themselves, and the body is next |
| `RequestRoundTrip.RoundTrip` | common/http/Http.cpp:555-599 | printing and reading a whole request recovers every field and the body, for every length that is not negative; it waits exactly while the body is short and the sum does not overflow |
| `RequestRoundTrip.RoundTripInChunks` | common/http/Http.cpp:555-599 | the same in any chunks that do not stall |
| `RequestRoundTrip.CutInsideBodyIsNeverAnswered` | common/http/Http.cpp:415-425 | every request with such a body, cut anywhere inside it, is never answered |
| `RequestRoundTrip.CutInsideBodyExample` | common/http/Http.cpp:415-425 | a concrete request of that kind |
| `RequestRoundTrip.CutInsideBodyThenMore` | common/http/Http.cpp:415-425 | a cut that lets the scanner move, and enough bytes after the body: answered with the fields and the body of a single `recv` |
| `RequestRoundTrip.CutThenMoreExample` | common/http/Http.cpp:415-425 | a concrete request of that kind |
| `RequestRoundTrip.NegativeLengthInTwoChunks` | common/http/Http.cpp:415-425 | a negative length: the same bytes in one chunk and in two give a whole body and a cut one |
| `RequestRoundTrip.NegativeLengthExample` | common/http/Http.cpp:415-425 | a concrete request of that kind |
| `Routing.FlagIs` | common/http/Http.cpp:433-436 | the flag is the character after the last slash |
| `Routing.FileIsChosen` | common/http/Http.cpp:499-551 | no form: the file for each flag, and served, refused or not found exactly by what `stat` says |
| `Routing.FormPageIsServed` | common/http/Http.cpp:440-551 | a form: the pages it can lead to, served from the document root |
| `Routing.UserWithoutEnd` | common/http/Http.cpp:448-449 | a form without a usable '&': all of the rest is the user |
| `Routing.PasswordWithoutStart` | common/http/Http.cpp:451-452 | a form without '=' is its own password |
| `Routing.NoSlashIsUnreachable` | common/http/Http.cpp:433-501 | neither early return of do_respone is taken for a complete request; when it throws |
| `Routing.FormRoundTrip` | common/http/Http.cpp:448-452 | a printed form is read back exactly when the name has no '&' and the password no '=' |
| `Routing.FirstRegistrationWins` | common/http/Http.cpp:454-482 | over any run, a name keeps the password loaded for it or first registered |
| `Routing.LoginIffPasswordMatches` | common/http/Http.cpp:483-495 | after any run, login reaches the welcome page if the form in the body field, which may be left over from an earlier request, gives that password, and the error page otherwise |
| `Routing.RunFollowsDoRespone` | common/http/Http.cpp:428-552 | a run's effect on the users is that of do_respone, request by request |
| `Response.ResponseIsFramed` | common/http/Http.cpp:729-804 | every handled code is answered in bounds with status line, headers, blank line and inline body; the vectors cover text and file; when the counter is their sum |
| `Response.StatusLinesAre` | common/http/Http.cpp:733-765 | the status line of each code, letter by letter |
| `Response.PagesAre` | common/http/Http.cpp:9-17 | the page of each code, letter by letter |
| `Response.HeadersAre` | common/http/Http.cpp:704-724 | the headers, letter by letter |
| `Response.AppendedExactlyWhen` | common/http/Http.cpp:682-698 | text is appended if and only if fewer than 1023 bytes are there afterwards |
| `Response.HeadersAppended` | common/http/Http.cpp:704-708 | headers behind other text: as many lines as fit, and whether all did |
| `Response.PageFits` | common/http/Http.cpp:729-804 | a page behind other text: answered if and only if the page itself fits |
| `Response.NotAnswered` | common/http/Http.cpp:796-798 | other codes leave everything as it was, and pages that do not fit the vectors and the counter |
| `Response.ContentLengthIsTrue` | common/http/Http.cpp:709-712 | Content-Length is the body's length if and only if that fits in an `int` (RFC 9110, section 8.6) |
| `Response.TooLargeExample` | common/http/Http.cpp:773-793 | a file of 2^31 bytes: the printed length and the counter are negative |
| `PrinterParser.HeadersAgree` | common/http/Http.cpp:704-724 | the server's parser reads from the printed headers the length and the connection choice, then the blank line |
| `VectoredWrite.AtMostOneShortWrite` | common/http/Http.cpp:621-680 | a finished response went out in order, each byte once, if and only if there was at most one short write; an unfinished one is right so far if and only if there were at most two, and its vectors if and only if there was at most one |
| `VectoredWrite.SecondShortWriteSkips` | common/http/Http.cpp:647-659 | after a second short write the next byte sent is not the one due |
| `VectoredWrite.RepliesDecide` | common/http/Http.cpp:621-680 | the response goes out whole and in order if and only if the replies, to a sender that offers all that is due, leave nothing over and make at most one write short |
| `VectoredWrite.TwoShortWritesExample` | common/http/Http.cpp:647-659 | the page for a refused request with room for one byte, one byte and all: a byte is skipped and the assertion fails |
| `VectoredWrite.AnyNumberOfShortWrites` | common/http/Http.cpp:646-660 | with offsets taken from `_write_idx` every run sends the bytes in order, each once |
| `VectoredWrite.OverflowFinishesEarly` | common/http/Http.cpp:623-645 | with a counter that has overflowed the first bytes that go out finish the response |
| `VectoredWrite.AnsweredIsReady` | common/http/Http.cpp:773-803 | what write_process leaves is what the theorems about write start from |
| `Serving.Delivered` | common/http/Http.cpp:608-804 | the places of buffer and file go out in order if and only if the kernel's replies make at most one write short and leave nothing over; the bytes there are the response |
| `Serving.BodylessRequest` | common/http/Http.cpp:555-599 | a request without a body is read as itself in any chunks whatever |
| `Serving.ServeIsAnswer` | common/http/Http.cpp:19-36 | `do_process` after each chunk ends as the parser's answer to all chunks says |
| `Serving.GetIsServed` | common/http/Http.cpp:19-36 | a GET in any chunks, whatever `stat` says: closed if the file is absent, else the file or the page with its length and the connection choice asked for; exactly when the client gets it |
| `Serving.MalformedIsRefused` | common/http/Http.cpp:19-36 | an unacceptable request line is answered with the 404 page, letter by letter |
| `Serving.LoginIsServed` | common/http/Http.cpp:440-496 | a login over the wire, with a body or without, after any run: when the program dies, and when the welcome page is reached |
| `Serving.RegistrationIsServed` | common/http/Http.cpp:454-482 | a registration over the wire, with a body or without: when the program dies, the users afterwards and the page |
| `Serving.LoginWithForm` | common/http/Http.cpp:483-495 | a login that carries its form is decided by the name and password in it |
| `LeftOver.FeedOverwrites` | common/http/Http.cpp:39-68 | whatever is sent, the text left over in the body field stays unless a body arrives, and changes nothing else |
| `LeftOver.FormIsItsOwn` | common/http/Http.cpp:373-452 | whatever is sent: the text left over makes a difference that can be seen if and only if the request is a complete login or registration whose Content-Length is 0 |
| `LeftOver.LoginWithoutBodyExample` | common/http/Http.cpp:440-452 | a concrete login without a body on a new object: the program dies |
| `Sessions.KeptIsFresh` | common/http/Http.cpp:39-68 | request after request on a kept connection: effect, and what is sent, are those of separate connections that get only the left-over form and the users |
| `Sessions.NothingToSendResets` | common/http/Http.cpp:612-619 | with nothing to send `write` resets the object, kept or not |
| `NotKept.LeftAmongHeaders` | common/http/Http.cpp:373-384 | a request without a body leaves the parser among header lines |
| `NotKept.AnsweredAgain` | common/http/Http.cpp:631-645 | on a connection that is not reset the next request is answered for the URL it still has, behind the old text |
| `NotKept.SecondRequestGetsTheFirst` | common/http/Http.cpp:631-645 | two requests, the first without keep-alive: when its response has gone out, the second is answered for the first one's URL |
| `NotKept.AnyByteRepeats` | common/http/Http.cpp:415-425 | after a request with a body, whatever comes next completes the same request again |
| `NotKept.FormDealtWithAgain` | common/http/Http.cpp:19-36 | so its form is dealt with again |
| `TimerQueue.InsertIsStable` | common/timer/Timer.cpp:22-54 | insertion keeps the order, loses nothing and goes after exactly the entries not later |
| `TimerQueue.PlaceIsUnique` | common/timer/Timer.cpp:22-31 | the place the loop finds is the only one with exactly the entries not later before it |
| `TimerQueue.AdjustIsReinsertion` | common/timer/Timer.cpp:57-83 | after a raise, adjusting is taking out and inserting: sorted, same entries, after equal ones |
| `TimerQueue.AdjustInOrder` | common/timer/Timer.cpp:57-83 | whatever the new expiry, adjusting puts the queue in order if and only if no earlier entry is later |
| `TimerQueue.LoweredExample` | common/timer/Timer.cpp:57-67 | two timers, the second lowered below the first: it stays, and the queue is out of order |
| `TimerQueue.BecomesLastIff` | common/timer/Timer.cpp:75-82 | in an ordered list, the case that breaks the links is seen from the last entry alone |
| `TimerQueue.DueIsExact` | common/timer/Timer.cpp:132-148 | the entries fired are exactly the expired ones |
| `TimerRuns.StableOverRuns` | common/timer/Timer.cpp:8-149 | over every run of add, raise, del and tick with any expiries: distinct timers, each expiring when last set to, earlier ones first, equal ones in the order in which they were set |
| `TimerRuns.EntriesMoved` | common/timer/Timer.cpp:8-119 | which entry an addition, a raise or a deletion adds, replaces or removes |
| `TimerRuns.TickSplits` | common/timer/Timer.cpp:122-149 | a tick splits the list into what is due, fired in order, and the rest |
| `TimerRuns.TickFiresExactlyTheDue` | common/timer/Timer.cpp:122-149 | over every run: a tick fires exactly the timers last set to expire by then, in order, and leaves none |
| `TimerRuns.EachTimerOnce` | common/timer/Timer.cpp:8-149 | over every run: additions of a timer = deletions + firings + live |
| `TimerList.SortTimerList.AddTimer` | common/timer/Timer.cpp:8-55 | the linked list after insertion, whole and linked both ways; a recorded run stays one, so the list stays in order |
| `TimerList.SortTimerList.AddNode` | common/timer/Timer.cpp:15-55 | the same for a node with stale links: which of them survive |
| `TimerList.SortTimerList.AdjustTimer` | common/timer/Timer.cpp:57-83 | as written, whatever the new expiry: where the node goes; the list is whole, and has an end, if and only if the node was not a middle one that no other outlives |
| `TimerList.SortTimerList.AdjustTimerRepaired` | common/timer/Timer.cpp:57-83 | with the added line: the list is always whole |
| `TimerList.SortTimerList.SetAndAdjust` | common/WebServer.cpp:187-192 | the new expiry and the call, as written: one raise of the run, and when the list stays whole |
| `TimerList.SortTimerList.SetAndAdjustRepaired` | common/WebServer.cpp:187-192 | the same with the repaired method: the list stays whole, and a raise that does not lower keeps the order |
| `TimerList.SortTimerList.DelTimer` | common/timer/Timer.cpp:85-119 | exactly that node is gone, in each of the four cases; the order is kept |
| `TimerList.SortTimerList.Tick` | common/timer/Timer.cpp:122-149 | fired are the expired nodes, once each and in order; the rest is a whole list in order, though `_tail` may be stale |
| `TimerList.SortTimerList.Destroy` | common/timer/Timer.hpp:55-64 | every node is deleted once |
| `TimerList.StaleLinkIsACycle` | common/timer/Timer.cpp:75-82 | following `_next` never ends if and only if the last node's link is stale |
| `TimerList.SearchNeverEnds` | common/timer/Timer.cpp:22-31 | in a list that has lost its end, the search for the place of a timer that is not early never ends |
| `Reaper.PossibleIsLegal` | common/WebServer.cpp:168-206 | what the server does to the list, by a clock that does not go back, is a run of the list: no raise lowers |
| `Reaper.OrderOfActivity` | common/WebServer.cpp:168-191 | in every such run the list is in the order of last activity, each timer set three slots after it |
| `Reaper.AlarmFiresExactlyTheIdle` | common/timer/Timer.cpp:122-149 | an alarm fires exactly the timers idle for three slots, in order, never one too early, and leaves none |
| `Reaper.ActivityLandsLast` | common/WebServer.cpp:187-191 | activity always moves a timer to the end, and breaks the links exactly for a timer that is neither first nor last |
| `IdleTimers.WebServer.HttpCreateWithTimer` | common/WebServer.cpp:168-184 | one Connect step of the reaper on the linked list, and the new timer in the table, whatever was there |
| `IdleTimers.WebServer.AdjustTimer` | common/WebServer.cpp:187-194 | as written, whatever the clock: where the timer goes and when the list loses its end; by a clock that does not go back, one Activity step, the end is lost if and only if the timer was neither first nor last, and then no later search ends |
| `IdleTimers.WebServer.AdjustTimerRepaired` | common/WebServer.cpp:187-194 | one Activity step, with the repaired list |
| `IdleTimers.WebServer.DealTimer` | common/WebServer.cpp:196-206 | one Close step |
| `IdleTimers.WebServer.TimerHandler` | common/timer/Timer.cpp:183-188 | one Alarm step, firing the reaper's timers in the reaper's order |
| `IdleTimers.EndlessListExample` | common/WebServer.cpp:168-194 | three connections and one read on the second: the list has no end |
| `IdleTimers.ClockSetBackExample` | common/WebServer.cpp:168-194 | two connections, the clock set back, a read on the second: the list is out of order |
| `WorkQueue.QueueIsExact` | common/threadpool/ThreadPool.hpp:79-147 | for any producers and workers: FIFO, each request once, bounded, refused only when full, no worker woken for nothing |
| `WorkQueue.HandedOutInOrder` | common/threadpool/ThreadPool.hpp:79-147 | in every interleaving a woken worker gets the request accepted first among those not taken, and `append` accepts its caller's own |
| `WorkQueue.AppendCall` | common/threadpool/ThreadPool.hpp:79-109 | a whole call of `append` when there is room |
| `WorkQueue.RefusedCall` | common/threadpool/ThreadPool.hpp:79-103 | a whole call of `append` when the queue is full changes nothing |
| `WorkQueue.WorkerTurn` | common/threadpool/ThreadPool.hpp:134-147 | a worker's whole turn |
| `Reactor.HandshakeIsSafe` | common/WebServer.cpp:300-315 | while the main thread spins, exactly one of queued, with one worker, signalled; `append` never fails |
| `Reactor.JobIsTheEvent` | common/WebServer.cpp:287-352 | in every interleaving the main thread appends and waits for the event it was last given, a read for a read |
| `Reactor.ResultDecides` | common/threadpool/ThreadPool.hpp:155-190 | in every interleaving a request is processed only after a good read of it, and the timer's flag raised only after a failure |
| `Reactor.GoodReadIsProcessed` | common/threadpool/ThreadPool.hpp:159-168 | a good read: signal, the connection free the longest, processing, and the connection back at the end |
| `Reactor.FailureRaisesFlag` | common/threadpool/ThreadPool.hpp:169-190 | a failed read or write: signal, the timer's flag, wait again |
| `Reactor.GoodWriteIsSignalled` | common/threadpool/ThreadPool.hpp:176-182 | a good write: signal, wait again |
| `Reactor.WorkerChanges` | common/threadpool/ThreadPool.hpp:134-190 | which of a worker's steps change the queue, the semaphores, the flags and the pool, and how |
| `Reactor.MainChanges` | common/WebServer.cpp:300-318 | the same for the main thread's steps |
| `Reactor.AcceptResets` | common/http/Http.cpp:39-68 | an accepted connection has both flags down and waits to be read |
| `Reactor.SpinEnds` | common/WebServer.cpp:302-315 | whichever workers run, the spin ends within a bounded number of their steps and never in a deadlock |
| `Reactor.SomebodyCanMove` | common/threadpool/ThreadPool.hpp:134-188 | while the signal has not come, some worker can take a step |
| `Reactor.PoolIsSafe` | common/connecter/SqlConnectionPool.cpp:86-126 | semaphore accounting and conservation of connections; no connection is held twice; `front()` never meets an empty list |
| `Reactor.PoolSuffices` | common/connecter/SqlConnectionPool.cpp:86-106 | with as many connections as workers nobody gets null and the pool's semaphore never blocks |
| `Pools.ConnectionPool.Init` | common/connecter/SqlConnectionPool.cpp:48-77 | the filled pool is the one the runs start from |
| `Pools.ConnectionPool.TakeLocked` | common/connecter/SqlConnectionPool.cpp:96-103 | the locked section of get_conn is the system's pop step |
| `Pools.ConnectionPool.PutLocked` | common/connecter/SqlConnectionPool.cpp:116-122 | the locked section of release_conn is the system's push step |
| `Pools.ConnectionPool.GetConn` | common/connecter/SqlConnectionPool.cpp:86-106 | alone, a call hands out the connection free the longest, or null; it is the one or three steps of the system that its sections are |
| `Pools.ConnectionPool.ReleaseConn` | common/connecter/SqlConnectionPool.cpp:109-126 | alone, a call puts the connection at the end and turns null away; it is the steps that its sections are |
| `Pools.ConnectionPool.RaiiScope` | common/connecter/SqlConnectionPool.cpp:145-156 | what a scope takes it gives back, in the two or six steps of its calls |
| `Pools.ThreadPool.AppendLocked` | common/threadpool/ThreadPool.hpp:79-90 | the locked section of append is the system's step |
| `Pools.ThreadPool.TakeLocked` | common/threadpool/ThreadPool.hpp:138-147 | the locked section of run is the system's step, and under the accounting never finds the queue empty |

## Left out

- AnsweredExactlyWhen: assumes that length and cursor do not overflow (`BodyRuns` says when they do) and that the buffer is not full; so does `SameAsOneReceive`. The server does not support pipelining, because `_init` clears the buffer.
- SplitExactly: is about a body that ends the stream; `SameAsOneReceive` is about any bytes after it.
- SplitIndependent: assumes that Content-Length is not negative; `NegativeLengthTakesWhatArrived` says what happens otherwise, as long as the terminator falls inside the buffer and the buffer is not full.
- AtMostOneShortWrite: assumes that header and file together fit in an `int`, as `_bytes_not_send` does.
- AdjustTimerRepaired: is not the code as it is, in the list and in the server; `AdjustTimer` is.
- SetAndAdjustRepaired: is not the code as it is; `SetAndAdjust` is.
- What becomes of a list that has lost its end, beyond the search that does not end: nothing is claimed; the server's runs go on with the repaired method.
- PossibleIsLegal: assumes a clock that does not go back; `SetAndAdjust` and `AdjustInOrder` say what the list does when an expiry is lowered.
- AnyNumberOfShortWrites: is not the code as it is; `AtMostOneShortWrite` is.
- HandshakeIsSafe: says nothing about `_timer_flag`, which a worker sets after `_improv`, so that the main thread may miss it in the same handshake.
- ReadProcess: what the program does after it has stored or read outside `_in_buffer`, or overflowed an `int` on the way there, is undefined; the outcome Overrun marks that point and nothing is claimed beyond it.
- The printing in the parsers and in `read_process`: with a full buffer and no NUL in the body, `printf("%s\n", line)` reads past `_in_buffer` while the model still waits.
- Atoi: numbers that do not fit in an `int`, which C leaves undefined, are taken as glibc does: saturated at 64 bits, then truncated.
- Sockets, epoll, signals, `alarm`, `stat`, `open`, `mmap` and MySQL: their results are parameters; the file system is a function from paths to what `stat` says, and an SQL insert succeeds or fails as it likes.
- The close path of `do_process`, `_user_count`, and the link between timers and open descriptors: the code frees a descriptor while its timer stays in the list, so nothing is claimed about them.
- The object a freed timer or a reused descriptor leaves behind: a removed node is out of the list, and its later use is not modelled.
- `init_mysql`, thread creation, singletons, `destory_pool`, `unmap`, the Proactor branches, `trig_mode` and `event_listen`: configuration, teardown or unfinished code.
- Memory weaker than sequential consistency, and overflow of a semaphore's counter.
