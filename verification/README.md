# muduo: verified models

Models, in Dafny, of the parts of the muduo network library and its Sudoku example
whose correctness is least obvious, with proofs of what they promise.
`dafny verify dfyconfig.toml` checks all of it.

| part | files |
|---|---|
| dancing links: exact cover, pointer structure, its construction from a Sudoku board, the search | `ExactCover`, `Rings`, `LinkedMatrix`, `MatrixBuilder`, `SudokuGrid`, `SudokuSolver` |
| Julian days, UTC and local time | `Calendar`, `TimeZone` |
| one TCP connection on its loop thread | `TcpConnection` |
| the timer queue and its kernel timer | `TimerQueue` |
| the event loop's functor queue and wakeup, any number of threads | `EventLoop` |
| the asynchronous log's buffer exchange | `AsyncLogging` |
| the two pollers as refinements of one interest map | `Pollers` |
| the network buffer, the length-prefixed protobuf codec, the HTTP request parser | `Buffer`, `ProtobufCodec`, `HttpContext` |

Objects that the library updates in place are classes here, and their methods are
proved against functions or predicates on values; the theorems about runs, round
trips and interleavings are lemmas about those. The two concurrent protocols are
state machines over atomic steps: a run is any schedule of them. Kernel answers,
clock readings and what user callbacks do are parameters, so every statement holds
for all of them.

Where the code and its comments or expectations differ, the code is modelled:

- A Sudoku with conflicting givens is never checked for; NoSolution still follows.
- The one-hour correction in `fromLocalTime` is right for shifts of exactly 3600 s (`TimeZone.HourShiftOnly`).
- A line without a colon, not only an empty one, ends the HTTP headers.
- After a bad frame or request line the bytes stay in the buffer, so a later call meets them again.
- A message over the codec's limit can be written but not read (`ProtobufCodecs.TooLongIsRefused`).
- A first update with an empty mask leaves PollPoller watching the descriptor for nothing, and its removal before another update fails an assertion (`Pollers.ParkedEntry`); EPollPoller adds an empty registration also when a taken-out channel is updated with one. The contracts of `UpdateChannel` say exactly when.
- Because of that, a connection that goes down with no interest, or on which a `stopRead` takes effect after it closed with reading on, stays in epoll's set although it wants nothing. A hang-up before its destruction then closes it again: the assertion at the head of `handleClose` fails, and in the default build, without assertions, the down callback is called and the destruction queued a second time (`TcpConnections.ClosedTwice`). `TcpConnection.Run` has the exact condition. PollPoller parks the entry and is not affected.
- Stopping the log writes what is in memory only up to the last batch taken (`AsyncLoggings.StopKeepsAllIff`).

Assumptions, each as narrow as the code allows: a failed assertion of the connection
does nothing, as in the default build; the connection is served by epoll, the default
poller, which reports a channel with an empty mask for hang-ups and errors only; no
`startRead` on a closed connection;
POLLRDHUP or POLLPRI come with POLLHUP only if POLLIN does; a channel object
removed from PollPoller is not registered again (its descriptor may be, by another); the event loop starts with an empty queue; the
HTTP parser is entered in one of its two reading states; `gmtime_r` and `timegm` are
the library's own `toUtcTime` and `fromUtcTime`.

## Model

| member | source | states |
|---|---|---|
| ExactCover.Branch | examples/sudoku/sudoku.cpp:116-131 | The branching step of the search is exact: whatever uncovered column is picked, the rest is solvable if and only if some candidate row hitting that column leaves a solvable rest. |
| ExactCover.CoversExtend | examples/sudoku/sudoku.cpp:118-124 | A candidate row followed by an exact cover of what it leaves is an exact cover, every column hit exactly once. |
| ExactCover.CoversSplit | examples/sudoku/sudoku.cpp:116-131 | Every exact cover contains a row hitting a given uncovered column, and without that row it covers exactly the rest. |
| ExactCover.RenameCovers | examples/sudoku/sudoku.cpp:63-72 | Being an exact cover does not depend on how columns are named, so header nodes can stand for column names. |
| Rings.RelinkUndoesUnlink | examples/sudoku/sudoku.cpp:222-239 | Relinking a node that was just unlinked restores every link and every size of the whole store. |
| Rings.RelinkHeaderUndoesUnlinkHeader | examples/sudoku/sudoku.cpp:220-241 | The same for a header: relinking undoes unlinking exactly. |
| Rings.UnlinkRing | examples/sudoku/sudoku.cpp:222-228 | Unlinking a node leaves a proper circular list of the remaining nodes of its column, in the same order. |
| Rings.UnlinkHeaderRing | examples/sudoku/sudoku.cpp:220-221 | Unlinking a header leaves a proper circular list of the remaining headers. |
| LinkedMatrix.CoverInv | examples/sudoku/sudoku.cpp:218-229 | Covering an uncovered column keeps the invariant of the pointer structure: rings intact, each `size` the length of its column, columns listing exactly the candidate rows; the covered column keeps its own list. |
| LinkedMatrix.CoverLists | examples/sudoku/sudoku.cpp:222-228 | After covering a column the others list exactly the rows that do not hit it either. |
| LinkedMatrix.UncoverUndoesCover | examples/sudoku/sudoku.cpp:218-242 | Uncover undoes cover link for link and size for size, for every column of every reachable structure. |
| LinkedMatrix.RelinkAllUndoes | examples/sudoku/sudoku.cpp:222-239 | Any sequence of listed nodes unlinked one by one and relinked in the reverse order restores the whole store. |
| LinkedMatrix.CoverAllInv | examples/sudoku/sudoku.cpp:120-122 | A nest of covers keeps the invariant and covers exactly the union of the columns. |
| LinkedMatrix.NestRow | examples/sudoku/sudoku.cpp:120-129 | While a row's other columns are being covered, the row itself can still be walked in both directions, although the structure around it changes. |
| LinkedMatrix.ChooseRow | examples/sudoku/sudoku.cpp:118-122 | A row listed under an uncovered column is a candidate, and after covering that column its other columns are all still there to be covered; together they are the columns the row hits. |
| LinkedMatrix.TakenRow | examples/sudoku/sudoku.cpp:119-125 | When the rest succeeds, the rows on the stack from this level on are an exact cover of what was uncovered at this level. |
| LinkedMatrix.AllTried | examples/sudoku/sudoku.cpp:116-132 | When every listed row failed, there is no exact cover at all. |
| LinkedMatrix.NoneLeft | examples/sudoku/sudoku.cpp:97 | `root_->left == root_` holds if and only if every column of the problem is covered. |
| MatrixBuilder.AddColumnInv | examples/sudoku/sudoku.cpp:158-165 | Appending a column keeps the invariant of the structure and adds one empty column at the end of the header list. |
| MatrixBuilder.AddRowInv | examples/sudoku/sudoku.cpp:82-88 | Adding four nodes and stringing them together keeps the invariant; the new row hits exactly the four columns and carries the right names. |
| MatrixBuilder.Represented | examples/sudoku/sudoku.cpp:57-92 | The finished pointer structure is, up to column names, exactly the exact-cover problem of the board: a column for each empty cell and each missing digit of a row, column and box, a row for each candidate digit. |
| SudokuGrid.Pigeonhole | examples/sudoku/sudoku.cpp:63-72 | Nine digits are pairwise different if and only if all of 1 to 9 occur: the counting argument behind covering columns instead of forbidding clashes. |
| SudokuGrid.SolvedIffComplete | examples/sudoku/sudoku.cpp:63-72 | A full grid has no repeated digit in any row, column or box if and only if every unit holds every digit. |
| SudokuGrid.CoverSolves | examples/sudoku/sudoku.cpp:57-92 | Every exact cover, written to the board, is a solved grid extending the givens. |
| SudokuGrid.SolutionCovers | examples/sudoku/sudoku.cpp:57-92 | Every solved grid extending the givens gives an exact cover. |
| SudokuGrid.SolvableIffSolution | examples/sudoku/sudoku.cpp:33-93 | The encoded problem has an exact cover if and only if some valid grid extends the givens. |
| SudokuGrid.UnitCounting | examples/sudoku/sudoku.cpp:47-72 | A row, column or box never has more empty cells than it lacks digits, and as many if and only if its givens do not clash. |
| SudokuGrid.ConflictingGivens | examples/sudoku/sudoku.cpp:47-55 | Two equal givens in a row, column or box leave a unit with fewer empty cells than digits to place; the encoded problem then has no exact cover and the board no solution, although no code checks for the conflict. |
| DancingLinks.SudokuSolver.constructor | examples/sudoku/sudoku.cpp:33-93 | Builds a structure that satisfies the invariant and represents the board's exact-cover problem; node and column storage never overflows and no column is appended twice. |
| DancingLinks.SudokuSolver.MarkGivens | examples/sudoku/sudoku.cpp:43-55 | The three tables say, for each unit and digit, whether the digit is among the givens. |
| DancingLinks.SudokuSolver.AppendCellColumns | examples/sudoku/sudoku.cpp:57-61 | One column for each empty cell, none twice. |
| DancingLinks.SudokuSolver.AppendIfMissing | examples/sudoku/sudoku.cpp:65-70 | A column for a digit of a unit exactly if no given supplies it. |
| DancingLinks.SudokuSolver.AppendUnitColumns | examples/sudoku/sudoku.cpp:63-72 | One column for each digit a row, column or box lacks, within the storage bound. |
| DancingLinks.SudokuSolver.AppendRows | examples/sudoku/sudoku.cpp:74-92 | One row for each digit that clashes with no given, for each empty cell, within the storage bound. |
| DancingLinks.SudokuSolver.AddCandidate | examples/sudoku/sudoku.cpp:82-88 | One candidate row added to the structure, invariant kept. |
| DancingLinks.SudokuSolver.MakeRow | examples/sudoku/sudoku.cpp:82-88 | The four nodes and three put_left calls in place amount to the row of the specification. |
| DancingLinks.SudokuSolver.NewColumn | examples/sudoku/sudoku.cpp:144-156 | In place: a header linked to itself in all four directions, all other nodes unchanged. |
| DancingLinks.SudokuSolver.NewRow | examples/sudoku/sudoku.cpp:167-184 | In place: a node at the bottom of the named column, all else as the specification says. |
| DancingLinks.SudokuSolver.PutLeft | examples/sudoku/sudoku.cpp:244-250 | The four link writes in place, equal to the specification that AddColumnInv and AddRowInv are about. |
| DancingLinks.SudokuSolver.PutUp | examples/sudoku/sudoku.cpp:252-260 | The six writes in place, size included. |
| DancingLinks.SudokuSolver.AppendColumn | examples/sudoku/sudoku.cpp:158-165 | Keeps the building invariant; the column can be found by its name afterwards. |
| DancingLinks.SudokuSolver.UnlinkColumn | examples/sudoku/sudoku.cpp:220-221 | Exactly the header unlink of the specification. |
| DancingLinks.SudokuSolver.RelinkColumn | examples/sudoku/sudoku.cpp:240-241 | Exactly the header relink of the specification. |
| DancingLinks.SudokuSolver.UnlinkNode | examples/sudoku/sudoku.cpp:224-226 | Exactly the node unlink of the specification, size included. |
| DancingLinks.SudokuSolver.RelinkNode | examples/sudoku/sudoku.cpp:235-237 | Exactly the node relink of the specification, size included. |
| DancingLinks.SudokuSolver.Cover | examples/sudoku/sudoku.cpp:218-229 | The two nested loops over links that they are themselves changing terminate, cover the column and keep the invariant. |
| DancingLinks.SudokuSolver.Uncover | examples/sudoku/sudoku.cpp:231-242 | Given the state before the matching cover, restores that very state. |
| DancingLinks.SudokuSolver.CoverRow | examples/sudoku/sudoku.cpp:120-122 | Covers the other columns of the chosen row, one inside the other. |
| DancingLinks.SudokuSolver.UncoverRow | examples/sudoku/sudoku.cpp:127-129 | Walking the row the other way undoes them all and restores the very state from before. |
| DancingLinks.SudokuSolver.GetMinColumn | examples/sudoku/sudoku.cpp:201-216 | An uncovered column; if it has more than one row, no uncovered column has fewer (the early exit at size one is why not always the minimum). |
| DancingLinks.SudokuSolver.ReadRow | examples/sudoku/sudoku.cpp:99-108 | Starting anywhere in a row the walk ends and finds the row's cell and digit. |
| DancingLinks.SudokuSolver.WriteBoard | examples/sudoku/sudoku.cpp:98-112 | Writes exactly the digits of the chosen rows. |
| DancingLinks.SudokuSolver.Solve | examples/sudoku/sudoku.cpp:95-133 | Terminates; returns true if and only if the uncovered columns have an exact cover by the remaining rows; on success the rows pushed on the stack are such a cover and are written to the board; on failure every link, every size, the stack and the board are as before. |
| DancingLinks.SudokuSolver.TryRow | examples/sudoku/sudoku.cpp:119-129 | One turn of the row loop: true if and only if this row leads to a cover, and all undone if not. |
| DancingLinks.CellIsDigit | examples/sudoku/sudoku.cpp:269-287 | A cell of the board is a digit exactly if the character is that digit, in the puzzle and in the result. |
| DancingLinks.ReadPuzzle | examples/sudoku/sudoku.cpp:269-275 | Each character becomes its digit, valid exactly if all are digits. |
| DancingLinks.WriteResult | examples/sudoku/sudoku.cpp:282-287 | The text reads back as the board. |
| DancingLinks.SolveSudoku | examples/sudoku/sudoku.cpp:263-291 | For every 81-character puzzle: a full valid grid extending the givens exactly if one exists, NoSolution otherwise; invalid characters and clashing givens always give NoSolution. |
| Calendar.JdnShifted | muduo/muduo/base/Date.cc:20-27 | The closed form is days of whole shifted years plus day of the shifted year. |
| Calendar.NextDayCounts | muduo/muduo/base/Date.cc:20-27 | Going to the next day through any month end and leap day adds exactly one to the day number. |
| Calendar.AfterCounts | muduo/muduo/base/Date.cc:20-27 | The day number counts days: n days later it is n more. |
| Calendar.RoundTripFromDate | muduo/muduo/base/Date.cc:20-42 | Every valid Gregorian date from 1 March -4800 on is recovered from its day number. |
| Calendar.RoundTripFromDay | muduo/muduo/base/Date.cc:29-42 | Every day number from that day on gives a valid date with that number, the very date reached by counting days. |
| Calendar.NextDayNumber | muduo/muduo/base/Date.cc:29-42 | Consecutive day numbers are consecutive calendar days. |
| Calendar.JdnInjective | muduo/muduo/base/Date.cc:20-27 | Different dates have different day numbers. |
| Calendar.NoOverflow | muduo/muduo/base/Date.cc:29-42 | Up to the day number where 4a+3 fills 32 bits no intermediate value overflows. |
| TimeZone.FillHMS | muduo/muduo/base/TimeZone.cc:71-77 | Sets hour, minute, second and leaves the other fields alone. |
| TimeZone.ToUtcTime | muduo/muduo/base/TimeZone.cc:317-343 | Field by field equal to the specification the lemmas below are about, the floor correction included. |
| TimeZone.UtcWeekDay | muduo/muduo/base/TimeZone.cc:335 | tm_wday counts on from the Thursday of the epoch, one a day, mod 7: at every time from the day before day number 0 on, and before that on Sundays only. |
| TimeZone.LocalFields | muduo/muduo/base/TimeZone.cc:272-290 | Local time names its offset, and less that offset its fields are the time given, weekday included. |
| TimeZone.FloorSplit | muduo/muduo/base/TimeZone.cc:322-328 | C's truncating / and % plus the correction give the floor split, for negative times too. |
| TimeZone.UtcRoundTrip | muduo/muduo/base/TimeZone.cc:317-358 | fromUtcTime(toUtcTime(t)) == t for every t from 1 March -4800 on, negative included. |
| TimeZone.UtcFields | muduo/muduo/base/TimeZone.cc:329-341 | Every field is in calendar range, the day of the year being the number of days since 1 January, or 0 if not asked for; no daylight flag and no offset. |
| TimeZone.UtcInverse | muduo/muduo/base/TimeZone.cc:317-358 | Conversely fields to seconds and back gives the same fields. |
| TimeZone.DayInYear | muduo/muduo/base/TimeZone.cc:337-341 | tm_yday counts the days from 1 January, between 0 and 365. |
| TimeZone.WeekDayCycle | muduo/muduo/base/Date.h:96-99 | The weekday advances by one mod 7 each day; 1 January 1970 is a Thursday. |
| TimeZone.WeekDayRange | muduo/muduo/base/Date.h:96-99 | The weekday is in range if and only if the day number is at least -1 or falls on a Sunday: C's remainder is negative below. |
| TimeZone.FindBetween | muduo/muduo/base/TimeZone.cc:218-250 | For an alternating table the lookup, by either clock, finds the local time type in force between two transitions, which local time then shows. |
| TimeZone.FixedRoundTrip | muduo/muduo/base/TimeZone.cc:265-315 | With a fixed offset, any offset, local time and back is the identity. |
| TimeZone.LocalRoundTripExact | muduo/muduo/base/TimeZone.cc:272-315 | For an alternating table with any shift s: local time and back is the identity, except that on the first pass of a repeated stretch it is off by exactly s - 3600. |
| TimeZone.LocalRoundTrip | muduo/muduo/base/TimeZone.cc:272-315 | With a shift of 3600 seconds it is the identity at every second, both passes of the repeated hour included. |
| TimeZone.HourShiftOnly | muduo/muduo/base/TimeZone.cc:303-313 | A zone that ever leaves daylight time round-trips at every second if and only if its shift is 3600: the hard-wired constant is exact. |
| TcpConnections.SentFlows | muduo/muduo/net/TcpConnection.cc:139-192 | Sending keeps accepted bytes equal to wire and buffer, never half-closes, and leaves the buffer empty exactly if all went out at once or a direct write met a broken pipe. |
| TcpConnections.UserObeyed | muduo/muduo/net/TcpConnection.cc:92-321 | Whatever a callback calls, and in what order: exactly what it sends while connected is accepted; shutdown and forceClose leave the connected state, half-close an empty buffer and queue the forced close, and nothing else does; reading is as last switched. |
| TcpConnections.BufferedFirst | muduo/muduo/net/TcpConnection.cc:152-191 | Nothing a callback sends overtakes what is already buffered. |
| TcpConnections.WritableWrites | muduo/muduo/net/TcpConnection.cc:368-406 | A writable socket takes a prefix of the buffer; drained, it is watched no more, completion is queued and a pending half-close done. |
| TcpConnections.QuietEvent | muduo/muduo/net/Channel.cc:83-114 | An event that brings nothing and ends nothing lets the buffer be written, and does only that. |
| TcpConnections.EventLaws | muduo/muduo/net/Channel.cc:83-114 | Any event ends a live connection, or hands what arrived to the callback, which is obeyed, and then, if the socket is writable, gets at least that much of the buffer written that the kernel would have taken before. |
| TcpConnections.TurnLaws | muduo/muduo/net/TcpConnection.cc:83-421 | Every kind of turn does what it is for: events, functors off the queue, user calls, teardown, each with its callback obeyed. |
| TcpConnections.ClosedLaws | muduo/muduo/net/TcpConnection.cc:408-421 | A close is one down callback and one request for destruction, and the callback can still stop reading. |
| TcpConnections.TcpConnection.SendConnected | muduo/muduo/net/TcpConnection.cc:139-192 | A send as a step of the value model the laws above are about. |
| TcpConnections.TcpConnection.HandleWritable | muduo/muduo/net/TcpConnection.cc:368-406 | Likewise the writable branch. |
| TcpConnections.TcpConnection.DisableReading | muduo/muduo/net/TcpConnection.cc:313-321 | Read interest and reading_ off, the channel updated; on a closed connection this is what exposes it. |
| TcpConnections.TcpConnection.PopFunctor | muduo/muduo/net/EventLoop.cc:254-269 | The functor in front; a destruction is only ever found on a disconnected connection. |
| TcpConnections.TcpConnection.TakeTurn | muduo/muduo/net/EventLoop.cc:103-134 | One turn of the loop thread keeps all invariants and is the turn of the value model. |
| TcpConnections.TcpConnection.SendInLoop | muduo/muduo/net/TcpConnection.cc:139-192 | Wire, accepted bytes, output buffer and callbacks after a send, for every answer of write(2): partial write, would-block, broken pipe (the whole message lost), other error; never a byte lost, doubled or reordered, write interest on exactly if something is left. The completion callback is queued exactly if all was written at once, the watermark callback with the new length exactly on crossing the mark. |
| TcpConnections.TcpConnection.SendMessage | muduo/muduo/net/TcpConnection.cc:92-110 | Sends in the connected state only; the rest as above, every invariant kept. |
| TcpConnections.TcpConnection.WriteDirectly | muduo/muduo/net/TcpConnection.cc:151-174 | What was written and what remains add up; the completion callback is queued exactly if all was written at once. |
| TcpConnections.TcpConnection.AppendRest | muduo/muduo/net/TcpConnection.cc:177-191 | The rest goes behind the buffer; the watermark callback is queued exactly on crossing the mark upwards. |
| TcpConnections.TcpConnection.ShutdownNow | muduo/muduo/net/TcpConnection.cc:194-203 | From connected only; the half-close happens at once exactly if nothing is left to write. |
| TcpConnections.TcpConnection.ShutdownInLoop | muduo/muduo/net/TcpConnection.cc:205-213 | Half-closes exactly if the output buffer is empty, with all accepted bytes on the wire. |
| TcpConnections.TcpConnection.ForceCloseNow | muduo/muduo/net/TcpConnection.cc:239-247 | Queues the forced close and moves on to disconnecting, in the two live states only. |
| TcpConnections.TcpConnection.ForceCloseInLoopNow | muduo/muduo/net/TcpConnection.cc:261-269 | Ends a live connection, and leaves an ended one alone. |
| TcpConnections.TcpConnection.StartReadInLoop | muduo/muduo/net/TcpConnection.cc:298-306 | Read interest on, invariants kept. |
| TcpConnections.TcpConnection.StopReadInLoop | muduo/muduo/net/TcpConnection.cc:313-321 | Read interest off, invariants kept; takes effect exactly if reading or read interest was on, and then updates the channel: a closed connection whose reading was still on enters the kernel's set with an empty mask. |
| TcpConnections.TcpConnection.UpdateChannel | muduo/muduo/net/poller/EPollPoller.cc:107-149 | In the kernel's set afterwards exactly if something is wanted or the channel was not in it before. |
| TcpConnections.TcpConnection.HandleWrite | muduo/muduo/net/TcpConnection.cc:368-406 | A prefix of the buffer moves to the wire; when it drains, interest goes off, completion is queued and a pending half-close is carried out. |
| TcpConnections.TcpConnection.Drained | muduo/muduo/net/TcpConnection.cc:379-390 | The draining branch: half-close exactly if disconnecting. |
| TcpConnections.TcpConnection.HandleClose | muduo/muduo/net/TcpConnection.cc:408-421 | All interest off, one down callback, destruction queued once more, whatever the callbacks do, on a live connection and on a closed one that the kernel still reports; the second close is the last, after it the kernel no longer has the channel. |
| TcpConnections.TcpConnection.CallBackClosed | muduo/muduo/net/TcpConnection.cc:418-420 | The close callback asks for destruction exactly once. |
| TcpConnections.TcpConnection.GoDown | muduo/muduo/net/TcpConnection.cc:412-415 | Entering the disconnected state keeps all invariants; afterwards the kernel has the channel exactly if the connection was live and had no interest, because disableAll then registers it with an empty mask. |
| TcpConnections.TcpConnection.HandleRead | muduo/muduo/net/TcpConnection.cc:347-366 | The connection ends exactly on a read of zero bytes. |
| TcpConnections.TcpConnection.HandleEvent | muduo/muduo/net/Channel.cc:83-114 | For any reported event, also one reported before the last interest was dropped, a live connection ends exactly on a hang-up without input or a read of zero bytes; otherwise what arrived goes to the callback, and if the socket is writable a prefix of the buffer is written, with the completion callback and the pending half-close on draining; on a closed one that the kernel still has, a hang-up closes it a second time: another down callback, another request for destruction. |
| TcpConnections.TcpConnection.ConnectEstablished | muduo/muduo/net/TcpConnection.cc:323-332 | Up callback once, obeyed, not yet down. |
| TcpConnections.TcpConnection.ConnectDestroyed | muduo/muduo/net/TcpConnection.cc:334-345 | From any state the channel leaves the poller and the kernel's set; a connected one goes down first, once; of a connected or closed one no interest is left, as the assertion in Channel::remove demands; a half-closed one is taken out with its interest unchanged, down callback never called. |
| TcpConnections.TcpConnection.GoDownUnclosed | muduo/muduo/net/TcpConnection.cc:337-343 | A connection still up goes down once and without a close callback. |
| TcpConnections.TcpConnection.RemoveChannel | muduo/muduo/net/poller/EPollPoller.cc:151-170 | Out of the poller and the kernel's set, whatever it wanted. |
| TcpConnections.TcpConnection.RunNextFunctor | muduo/muduo/net/EventLoop.cc:254-269 | Running any functor queued for the connection keeps all invariants; after a forced close or a destruction it is disconnected, and after a destruction out of the kernel's set. |
| TcpConnections.TcpConnection.UserCall | muduo/muduo/net/TcpConnection.cc:92-321 | Any one call does what the value model says and keeps all invariants, never ends the connection itself and after a half-close writes nothing; the only thing it can do to a closed one is put it into the kernel's set by stopRead. |
| TcpConnections.TcpConnection.StreamSent | muduo/muduo/net/TcpConnection.cc:139-192 | However many of its bytes were written directly, a message extends what was accepted by exactly itself, and the rest is what is buffered. |
| TcpConnections.TcpConnection.UserCode | muduo/muduo/net/TcpConnection.cc:92-321 | Any sequence of calls from a callback is obeyed and keeps all invariants; it never ends the connection itself, and after a half-close writes nothing. |
| TcpConnections.TcpConnection.Run | muduo/muduo/net/TcpConnection.cc:139-421 | Over every loop-thread run: every turn does what it is for (`TurnLaws`); while not disconnected, accepted bytes are wire then buffer and write interest is on exactly if the buffer is not empty; states only move forward; at most one half-close, with no byte on the wire afterwards; up once, and down once with one request for destruction unless exposed, in any case at most twice. Until the channel is removed, a connection closed once is in the kernel's set if and only if it is exposed: it had no interest when it went down, or a stopRead took effect afterwards. |
| TcpConnections.ClosedTwice | muduo/muduo/net/TcpConnection.cc:408-421 | A concrete run that ends with two down callbacks and two requests for destruction: stopRead with nothing to write, forceClose, hang-up before the destruction. |
| TcpConnections.ClosedTwiceByStopRead | muduo/muduo/net/TcpConnection.cc:308-321 | Another: forceClose first, then stopRead, then the hang-up. |
| TimerQueues.InsertSorted | muduo/muduo/net/TimerQueue.cc:250-254 | Inserting keeps the set ordered, adds exactly the entry, and changes the first exactly if the new one is earlier. |
| TimerQueues.EraseSorted | muduo/muduo/net/TimerQueue.cc:152 | Erasing keeps the order and removes exactly the entry. |
| TimerQueues.DueSplit | muduo/muduo/net/TimerQueue.cc:189-193 | The split point separates exactly the due from the not yet due. |
| TimerQueues.CancelEffect | muduo/muduo/net/TimerQueue.cc:144-162 | Cancelling by id, pending or in the batch being called or stale, keeps the promise that a cancelled timer is gone or marked, even when its address is reused. |
| TimerQueues.KernelInsert | muduo/muduo/net/TimerQueue.cc:133-142 | Adding keeps the kernel timer armed in time for the earliest entry. |
| TimerQueues.KernelErase | muduo/muduo/net/TimerQueue.cc:152 | Cancelling, the earliest included, never makes the kernel timer late. |
| TimerQueues.SettledStep | muduo/muduo/net/TimerQueue.cc:211-226 | One turn of the settling loop: exactly the repeating, uncancelled timers come back. |
| TimerQueues.CancelTakes | muduo/muduo/net/TimerQueue.cc:144-162 | Among any calls, every cancel of an id given out before it takes, and is never undone. |
| TimerQueues.OnlyCancelled | muduo/muduo/net/TimerQueue.cc:144-162 | Conversely whatever counts as cancelled was cancelled by such a call. |
| TimerQueues.AddTakes | muduo/muduo/net/TimerQueue.cc:117-125 | Among any calls, a timer added at an address free at that moment is pending afterwards unless it was cancelled. |
| TimerQueues.StaysPending | muduo/muduo/net/TimerQueue.cc:144-162 | A pending timer stays pending, unchanged, through any calls that do not cancel it. |
| TimerQueues.LimboStays | muduo/muduo/net/TimerQueue.cc:157-160 | Callbacks leave a timer of their own batch alone; cancelling it marks it, and counts as cancelled. |
| TimerQueues.CallbackOf | muduo/muduo/net/TimerQueue.cc:175-179 | Every call of every callback of the batch is performed, callback after callback, in order. |
| TimerQueues.DueIs | muduo/muduo/net/TimerQueue.cc:189-193 | The entries split off are exactly those of the timers that are due. |
| TimerQueues.TurnFires | muduo/muduo/net/TimerQueue.cc:164-183 | A batch leaves no timer that was due: it is gone, or repeats and has its next expiration. |
| TimerQueues.TimerStays | muduo/muduo/net/TimerQueue.cc:117-226 | A timer disappears only by being cancelled or, with no interval, by having run. |
| TimerQueues.CancelledForGood | muduo/muduo/net/TimerQueue.cc:127-162 | Over any run: an id cancelled from outside or in any callback, at whatever step, counts as cancelled ever after. |
| TimerQueues.TimerQueue.UserCall | muduo/muduo/net/TimerQueue.cc:117-131 | An add at a free address or a cancel of any id, from outside or from a callback, does what the laws above are about. |
| TimerQueues.TimerQueue.EndBatch | muduo/muduo/net/TimerQueue.cc:181-183 | The batch is settled, and no timer that is left was cancelled. |
| TimerQueues.TimerQueue.ResetTimerfd | muduo/muduo/net/TimerQueue.cc:41-81 | Armed for the expiration, but never less than 100 microseconds from now. |
| TimerQueues.TimerQueue.ReadTimerfd | muduo/muduo/net/TimerQueue.cc:57-66 | A read consumes a fired expiration. |
| TimerQueues.TimerQueue.Insert | muduo/muduo/net/TimerQueue.cc:239-263 | Both sets gain exactly this timer; earliestChanged exactly if it is the new first. |
| TimerQueues.TimerQueue.AddTimerInLoop | muduo/muduo/net/TimerQueue.cc:133-142 | The kernel timer is set again exactly if the earliest changed. |
| TimerQueues.TimerQueue.NewTimer | muduo/muduo/net/Timer.h:28-34 | A fresh sequence number, so no id ever names two timers. |
| TimerQueues.TimerQueue.AddTimer | muduo/muduo/net/TimerQueue.cc:117-125 | From outside or from a callback: one more pending timer, all invariants kept. |
| TimerQueues.TimerQueue.Free | muduo/muduo/net/TimerQueue.cc:150-155 | Erases the timer from both sets and frees it once. |
| TimerQueues.TimerQueue.CancelInLoop | muduo/muduo/net/TimerQueue.cc:144-162 | The three cases exactly: freed, marked, ignored. |
| TimerQueues.TimerQueue.CancelTimer | muduo/muduo/net/TimerQueue.cc:127-131 | From outside or from a callback: the id is no longer pending, other timers untouched. |
| TimerQueues.TimerQueue.GetExpired | muduo/muduo/net/TimerQueue.cc:185-205 | Exactly the timers due by now, earliest first; both sets still agree. |
| TimerQueues.TimerQueue.EraseActive | muduo/muduo/net/TimerQueue.cc:195-201 | The second set loses exactly the expired timers. |
| TimerQueues.TimerQueue.Restart | muduo/muduo/net/Timer.cc:16-26 | The next expiration counts from now; a one-shot timer gets the invalid time. |
| TimerQueues.TimerQueue.ResetOne | muduo/muduo/net/TimerQueue.cc:214-225 | Restarted and queued again if repeating and not cancelled, else freed, once. |
| TimerQueues.TimerQueue.SettleBatch | muduo/muduo/net/TimerQueue.cc:211-226 | After the batch nothing is in limbo: of its timers exactly the repeating uncancelled ones are pending, for now plus interval. |
| TimerQueues.TimerQueue.Reset | muduo/muduo/net/TimerQueue.cc:207-237 | ... and the kernel timer is armed for the first pending timer, those added by callbacks included. |
| TimerQueues.TimerQueue.StartBatch | muduo/muduo/net/TimerQueue.cc:166-173 | The start of a batch: all that is due is split off, in a batch of its own. |
| TimerQueues.TimerQueue.RunBatch | muduo/muduo/net/TimerQueue.cc:175-179 | Exactly the expired timers run, in order, each alive when it runs, and everything their callbacks ask for is done: every cancel of an id given out before takes. |
| TimerQueues.TimerQueue.HandleRead | muduo/muduo/net/TimerQueue.cc:164-183 | Runs exactly the timers due, and leaves a valid queue in which of these exactly the repeating uncancelled ones are pending again, for now plus interval, the others freed; every id given out before and cancelled in a callback of the batch counts as cancelled, and no timer left was. |
| TimerQueues.TimerQueue.UserCode | muduo/muduo/net/TimerQueue.cc:175-179 | All adds and cancels of a callback are performed, and keep the batch invariant. |
| TimerQueues.OnceRun | muduo/muduo/net/TimerQueue.cc:175-179 | A timer of the batch that has not run in it yet may run: it is the only live timer with its sequence number, so a one-shot timer never ran before. |
| TimerQueues.OnceSettled | muduo/muduo/net/TimerQueue.cc:211-226 | Settling frees every one-shot timer that ran and leaves the repeating ones for later batches. |
| TimerQueues.TimerQueue.TakeTurn | muduo/muduo/net/TimerQueue.cc:117-226 | One operation, from outside or the kernel timer firing, keeps the queue valid and is the turn of the value model. |
| TimerQueues.TimerQueue.Operate | muduo/muduo/net/TimerQueue.cc:117-263 | Over every run: both sets hold exactly the live timers; every cancel of an id given out, as a step or inside a callback, takes for good, and no live timer is a cancelled one; no timer runs in a batch after the one it was cancelled in; only a repeating timer runs more than once, each time in a later batch, reused addresses included; if any timer is pending the kernel timer is armed no later than the earliest, but for the 100 microsecond clamp. |
| EventLoops.StepKeepsOrder | muduo/muduo/net/EventLoop.cc:160-171 | Every atomic step of any thread keeps: queued = started, then taken, then pending, in order. |
| EventLoops.StepKeepsWakeup | muduo/muduo/net/EventLoop.cc:160-171 | Every atomic step keeps: if functors are pending from the swap on until poll, a wakeup is signalled or on its way. |
| EventLoops.EveryRun | muduo/muduo/net/EventLoop.cc:103-269 | Both hold in every reachable state, for any number of threads and any interleaving. |
| EventLoops.NoLostWakeup | muduo/muduo/net/EventLoop.cc:160-171 | At poll with functors pending, the eventfd is readable or some thread is between its push and its wakeup. |
| EventLoops.NoLostQuit | muduo/muduo/net/EventLoop.cc:136-146 | At poll with quit requested by another thread, likewise. |
| EventLoops.RunInQueueOrder | muduo/muduo/net/EventLoop.cc:254-269 | Functors run in queue order, each at most once. |
| EventLoops.LaterBatch | muduo/muduo/net/EventLoop.cc:254-269 | What is queued while a batch runs is not run in that batch. |
| EventLoops.QueuedGetsRun | muduo/muduo/net/EventLoop.cc:103-134 | Progress under any interleaving: on every schedule, from any state in order, on which the loop swaps the queue and gets back to poll or stops, all that was queued before has been run, in queue order. |
| EventLoops.StaysUnderWay | muduo/muduo/net/EventLoop.cc:254-269 | From the swap on everything queued before it has been started or is in the batch being called, whatever the other threads do. |
| EventLoops.PendingWillRun | muduo/muduo/net/EventLoop.cc:103-134 | Such a schedule exists: once all wakers are done, poll can return for the eventfd and one undisturbed round runs exactly all that was pending, in order. |
| EventLoops.OneRound | muduo/muduo/net/EventLoop.cc:254-269 | From poll with a readable eventfd, one undisturbed round runs the whole queue. |
| EventLoops.QuitIffAsked | muduo/muduo/net/EventLoop.cc:136-146 | quit_ is set if and only if some thread or the loop itself asked for it. |
| EventLoops.QuitStops | muduo/muduo/net/EventLoop.cc:103-134 | Asked to quit, the loop stops at the end of the round it is in, whatever else happens, and never runs again. |
| EventLoops.StoppedIffQuitServed | muduo/muduo/net/EventLoop.cc:103-134 | Over every schedule: the loop has stopped if and only if it was asked to quit and a round ended afterwards. |
| EventLoops.RoundEnds | muduo/muduo/net/EventLoop.cc:111-129 | A round leads back to poll exactly if nobody asked to quit. |
| EventLoops.PushTakes | muduo/muduo/net/EventLoop.cc:160-171 | Whatever the loop is doing, another thread can queue a functor and wake it. |
| EventLoops.QueueingTakes | muduo/muduo/net/EventLoop.cc:160-171 | So can a handler, and a functor that is being run, which also wakes the loop. |
| EventLoops.QuittingTakes | muduo/muduo/net/EventLoop.cc:136-146 | So can anyone ask it to quit, another thread waking it. |
| EventLoops.Finish | muduo/muduo/net/EventLoop.cc:103-134 | The loop thread is never stuck: from any state, on its own, it gets back to poll or, asked to quit, ends. |
| EventLoops.CanRun | muduo/muduo/net/EventLoop.cc:103-134 | Unless asked to quit, the loop can run whatever another thread queues, wherever it is at that moment. |
| EventLoops.QueuedBeforeLoop | muduo/muduo/net/EventLoop.cc:160-171 | The empty start queue is exactly the condition: every run from a start queue keeps a wakeup on its way for pending functors if and only if that queue is empty. |
| AsyncLoggings.FixedBuffer.Append | muduo/muduo/base/LogStream.h:36-44 | In place: the buffer holds exactly the lines copied so far; a line that does not fit is dropped whole, and one byte always stays free. |
| AsyncLoggings.FixedBuffer.Reset | muduo/muduo/base/LogStream.h:54 | The buffer is empty again. |
| AsyncLoggings.FixedBuffer.constructor | muduo/muduo/base/LogStream.h:25-29 | An empty buffer of the given size. |
| AsyncLoggings.Accepted | muduo/muduo/base/AsyncLogging.cc:29-51 | Exactly the lines shorter than a whole buffer are accepted, whichever branch append takes. |
| AsyncLoggings.RoomFirst | muduo/muduo/base/AsyncLogging.cc:29-51 | A line goes behind those in the current buffer as long as there is room, and only then is another buffer begun. |
| AsyncLoggings.AppendKeeps | muduo/muduo/base/AsyncLogging.cc:29-51 | An append at any moment keeps the spare-buffer, conservation and file invariants. |
| AsyncLoggings.TakeKeeps | muduo/muduo/base/AsyncLogging.cc:70-83 | So does the backend's critical section. |
| AsyncLoggings.RecycleKeeps | muduo/muduo/base/AsyncLogging.cc:104-126 | So does refilling the spares. |
| AsyncLoggings.StepKeepsInv | muduo/muduo/base/AsyncLogging.cc:53-130 | Every atomic step keeps the invariants, and the source's assertions hold at it. |
| AsyncLoggings.EveryRun | muduo/muduo/base/AsyncLogging.cc:29-130 | The invariants hold in every interleaving of appenders, backend and stop. |
| AsyncLoggings.AssertionsNeverFail | muduo/muduo/base/AsyncLogging.cc:64-126 | The recycling assertions and the buffer dereferences never fail: a null nextBuffer_ implies a second buffer in the batch. |
| AsyncLoggings.AllLinesInOrder | muduo/muduo/base/AsyncLogging.cc:29-83 | Batches handed over, then buffers_, then currentBuffer_ concatenate to all accepted lines, in order, no line split. |
| AsyncLoggings.FileIsOutput | muduo/muduo/base/AsyncLogging.cc:87-102 | Between batches the file is exactly, per batch, the buffers kept and a notice if the rest was dropped. |
| AsyncLoggings.OutputLines | muduo/muduo/base/AsyncLogging.cc:87-102 | A list of batches is written completely if and only if no batch of more than 25 had a line after its second buffer. |
| AsyncLoggings.DropsAreCounted | muduo/muduo/base/AsyncLogging.cc:87-96 | Of more than 25 buffers exactly all but two are dropped, and the notice in the file says how many. |
| AsyncLoggings.BackendReturns | muduo/muduo/base/AsyncLogging.cc:64-130 | The backend is never stuck: on its own it gets back between batches, taking from memory only at the end of a wait, and then everything. |
| AsyncLoggings.AllCanBeTaken | muduo/muduo/base/AsyncLogging.cc:64-130 | While the log runs everything accepted can get out of memory: handed to the backend in batches, the file then being what those call for. |
| AsyncLoggings.StopCanFinish | muduo/muduo/base/AsyncLogging.cc:64-130 | A stopped log comes to its end. |
| AsyncLoggings.DoneOnlyIfStopped | muduo/muduo/base/AsyncLogging.cc:64-130 | It ends only if stopped, and then begins no other batch once it is between batches. |
| AsyncLoggings.CompleteIffNothingDropped | muduo/muduo/base/AsyncLogging.cc:29-130 | At every moment of every interleaving the file, the buffers in flight, buffers_ and currentBuffer_ are every accepted line, in order, if and only if no settled batch of more than 25 had a line after its second buffer. |
| AsyncLoggings.WrittenAndInFlight | muduo/muduo/base/AsyncLogging.cc:87-102 | At any moment the file and the buffers in flight are what the settled batches call for, then the unsettled one. |
| AsyncLoggings.MemoryIsSinceTake | muduo/muduo/base/AsyncLogging.cc:29-83 | What is in buffers_ and currentBuffer_ is exactly what was accepted since the backend last took a batch. |
| AsyncLoggings.StopKeepsAllIff | muduo/muduo/base/AsyncLogging.cc:29-130 | After any run to the end the file is every accepted line, in order, if and only if nothing was dropped and the backend took a batch after the last accepted line. |
| AsyncLoggings.StopLosesMemory | muduo/muduo/base/AsyncLogging.cc:64-130 | A concrete run in which a line still in memory at stop is never written. |
| Pollers.MaskAlgebra | muduo/muduo/net/Channel.h:59-67 | Each mask operation settles one interest and leaves the other; only read and write bits ever occur; empty means neither. |
| Pollers.AddEntry | muduo/muduo/net/poller/PollPoller.cc:81-93 | A new entry keeps index and slot inverse to each other; the kernel is left watching an empty mask exactly for descriptors whose first mask was empty. |
| Pollers.SetEntry | muduo/muduo/net/poller/PollPoller.cc:95-111 | Updating an entry, ignored ones included, keeps the bijection. |
| Pollers.AddAsked | muduo/muduo/net/poller/PollPoller.cc:81-93 | Appending the entry changes what poll is asked for by exactly this descriptor. |
| Pollers.SetAsked | muduo/muduo/net/poller/PollPoller.cc:95-111 | Updating or ignoring an entry changes it by exactly this descriptor. |
| Pollers.RemoveEntry | muduo/muduo/net/poller/PollPoller.cc:126-141 | Swap-remove with the moved channel's index rewritten keeps the bijection, ignored entries at the end included. |
| Pollers.RemoveAsked | muduo/muduo/net/poller/PollPoller.cc:126-141 | Swap-remove changes what poll is asked for by exactly the removed descriptor. |
| Pollers.ParkedEntry | muduo/muduo/net/poller/PollPoller.cc:123-124 | The assertion on the entry about to be removed holds if and only if the descriptor has had an update since a first one with an empty mask. |
| Pollers.CanChange | muduo/muduo/net/poller/PollPoller.cc:77-112 | A channel whose descriptor is its own or nobody's can always change its mask, and owns it afterwards. |
| Pollers.CanGo | muduo/muduo/net/poller/PollPoller.cc:114-142 | After an update to the empty mask that was not its first it can be removed. |
| Pollers.BareRemovalFails | muduo/muduo/net/poller/PollPoller.cc:114-124 | An input: a channel whose only update was an empty mask may be removed, and PollPoller's assertion fails at it. |
| Pollers.PollPoller.UpdateChannel | muduo/muduo/net/poller/PollPoller.cc:77-112 | Refines the interest map: exactly this descriptor updated; it is watched for nothing exactly after a first update with an empty mask. |
| Pollers.PollPoller.AddChannel | muduo/muduo/net/poller/PollPoller.cc:81-93 | The branch for a new channel. |
| Pollers.PollPoller.SetChannel | muduo/muduo/net/poller/PollPoller.cc:95-111 | The branch for a registered channel, ignore encoding included. |
| Pollers.PollPoller.RemoveChannel | muduo/muduo/net/poller/PollPoller.cc:114-142 | The channel is gone, the interest map unchanged, indices and slots again inverse. |
| Pollers.PollPoller.Drop | muduo/muduo/net/poller/PollPoller.cc:128-141 | The swap, pop and index rewrite in place. |
| Pollers.PollPoller.FillActiveChannels | muduo/muduo/net/poller/PollPoller.cc:57-75 | Each reported descriptor's channel once, in entry order, registered, with its reported events; counting down and stopping early misses none. |
| Pollers.PollPoller.ChangeMask | muduo/muduo/net/Channel.h:61-65 | A channel's mask operation, an empty first one included, reaches the interest map. |
| Pollers.PollPoller.Run | muduo/muduo/net/poller/PollPoller.cc:77-142 | Any run that meets the source's assertions, descriptors handed from one channel to another included, leaves the poller asking for exactly the non-empty masks of the registered channels. |
| Pollers.EPollPoller.Update | muduo/muduo/net/poller/EPollPoller.cc:172-192 | Each epoll_ctl call meets the kernel's condition for it: add only what is absent, modify and delete only what is there. |
| Pollers.EPollPoller.UpdateChannel | muduo/muduo/net/poller/EPollPoller.cc:107-149 | Refines the same interest map; in the kernel set exactly if the mask is not empty or the channel was not; a descriptor with an empty mask enters the kernel set exactly if a channel not in it is updated with an empty mask. |
| Pollers.EPollPoller.EnterKernel | muduo/muduo/net/poller/EPollPoller.cc:112-131 | The branch for new and taken-out channels. |
| Pollers.EPollPoller.ModifyKernel | muduo/muduo/net/poller/EPollPoller.cc:132-148 | The branch for channels the kernel has: out exactly if the mask is empty. |
| Pollers.EPollPoller.RemoveChannel | muduo/muduo/net/poller/EPollPoller.cc:151-170 | The channel is gone from both maps, its index back to new, the interest map unchanged. |
| Pollers.EPollPoller.FillActiveChannels | muduo/muduo/net/poller/EPollPoller.cc:89-105 | Every reported channel is registered under its descriptor: the checked lookup cannot fail. |
| Pollers.EPollPoller.ChangeMask | muduo/muduo/net/Channel.h:61-65 | A channel's mask operation reaches the interest map. |
| Pollers.HandOver | muduo/muduo/net/poller/PollPoller.cc:77-142 | A descriptor number can pass from a removed channel to another one: the two commands are legal and the new channel owns it. |
| Pollers.EPollPoller.Run | muduo/muduo/net/poller/EPollPoller.cc:107-192 | Any run legal for PollPoller, and re-registrations of a removed channel too, ends in the same interest map as PollPoller's. |
| Buffers.BigEndianRoundTrip | muduo/muduo/net/Buffer.h:224-248 | Big-endian bytes read back as the number, for any width. |
| Buffers.IntRoundTrip | muduo/muduo/net/Buffer.h:224-324 | Appending an integer in network order and reading it gives it back, negative ones included. |
| Buffers.IntInverse | muduo/muduo/net/Buffer.h:265-324 | Every byte string of the width is the encoding of exactly the integer read from it. |
| Buffers.BigEndianBytes | muduo/muduo/net/Buffer.h:224-248 | The most significant byte comes first. |
| Buffers.FindCRLF | muduo/muduo/net/Buffer.h:80-85 | The first line break, or none. |
| Buffers.FindCRLFStable | muduo/muduo/net/Buffer.h:80-85 | More bytes behind never change a line break already found. |
| Buffers.Buffer.constructor | muduo/muduo/net/Buffer.h:48-56 | Empty, with the promised free space and gap. |
| Buffers.Buffer.Swap | muduo/muduo/net/Buffer.h:61-66 | The two byte queues change places. |
| Buffers.Buffer.Retrieve | muduo/muduo/net/Buffer.h:113-124 | The front of the queue is consumed; an emptied buffer has its full gap back. |
| Buffers.Buffer.RetrieveAll | muduo/muduo/net/Buffer.h:153-157 | Empty, full gap. |
| Buffers.Buffer.RetrieveAsString | muduo/muduo/net/Buffer.h:164-170 | What is returned followed by what is left is what was there. |
| Buffers.Buffer.Append | muduo/muduo/net/Buffer.h:182-187 | The queue grows by exactly the data, however space is made; with room enough nothing is reallocated. |
| Buffers.Buffer.EnsureWritableBytes | muduo/muduo/net/Buffer.h:194-201 | The room asked for, contents unchanged. |
| Buffers.Buffer.MakeSpace | muduo/muduo/net/Buffer.h:390-409 | Contents unchanged; grows exactly if front and back together are too small, else slides; the assertion that the reader is past the mark follows from both guards. |
| Buffers.Buffer.MoveToFront | muduo/muduo/net/Buffer.h:398-406 | The overlapping copy downwards keeps every byte. |
| Buffers.Buffer.Resize | muduo/muduo/net/Buffer.h:394-395 | A larger vector with the same bytes. |
| Buffers.Buffer.Unwrite | muduo/muduo/net/Buffer.h:215-219 | Exactly the last bytes are taken back. |
| Buffers.Buffer.Prepend | muduo/muduo/net/Buffer.h:354-360 | The queue gains exactly the data in front, within the gap, nothing moved. |
| Buffers.Buffer.AppendInt | muduo/muduo/net/Buffer.h:224-248 | The integer's big-endian bytes, appended. |
| Buffers.Buffer.PrependInt | muduo/muduo/net/Buffer.h:328-352 | The integer's big-endian bytes, in front. |
| Buffers.Buffer.PeekInt | muduo/muduo/net/Buffer.h:291-324 | The one integer whose encoding is in front. |
| Buffers.Buffer.ReadInt | muduo/muduo/net/Buffer.h:255-289 | That integer, and only its bytes are consumed. |
| Buffers.Buffer.Shrink | muduo/muduo/net/Buffer.h:362-369 | Same contents in a fresh vector with the room reserved. |
| Buffers.Buffer.ReadFd | muduo/muduo/net/Buffer.cc:25-57 | Whatever the kernel scatters over free space and overflow area arrives in order; on error nothing changes but the saved errno. |
| Buffers.Buffer.ReadCapacity | muduo/muduo/net/Buffer.cc:29-40 | One read can deliver at least 64 KiB, the overflow area being used exactly if there is less room than that. |
| Buffers.Buffer.Fill | muduo/muduo/net/Buffer.h:185-186 | Bytes copied to the free space and counted become the end of the queue. |
| ProtobufCodecs.JudgeStable | muduo/muduo/net/protobuf/ProtobufCodecLite.cc:62-95 | What the bytes at hand call for, once it is not waiting, is not changed by more bytes. |
| ProtobufCodecs.ReceiveConcat | muduo/muduo/net/protobuf/ProtobufCodecLite.cc:58-97 | Handing over two pieces in turn does what handing over both at once does. |
| ProtobufCodecs.LeftoverIsIdle | muduo/muduo/net/protobuf/ProtobufCodecLite.cc:58-97 | What onMessage leaves calls for nothing more, or for the same error again. |
| ProtobufCodecs.ChunkingIsInvisible | muduo/muduo/net/protobuf/ProtobufCodecLite.cc:58-97 | For arbitrary bytes, corrupt ones included, and a deterministic raw callback: messages, leftover, whether and how reading fails depend only on the concatenation; an error repeats at later calls because the frame stays in front. |
| ProtobufCodecs.ParseBody | muduo/muduo/net/protobuf/ProtobufCodecLite.cc:184-225 | A body as written parses to its message: checksum, tag and payload are found where they were put. |
| ProtobufCodecs.ParseExact | muduo/muduo/net/protobuf/ProtobufCodecLite.cc:184-225 | Exactly which bodies give which message, and which error: no valid checksum, a valid one behind another tag, the right tag before a payload that does not parse. |
| ProtobufCodecs.DeliveredIff | muduo/muduo/net/protobuf/ProtobufCodecLite.cc:58-97 | A message is delivered out of arbitrary bytes if and only if they begin with its frame, length, tag, payload and checksum, of at most 64 MB, and the raw callback lets it through. |
| ProtobufCodecs.VerdictByLength | muduo/muduo/net/protobuf/ProtobufCodecLite.cc:62-95 | Every other outcome by the length in front: when to wait, what is refused, what is skipped. |
| ProtobufCodecs.ReceivedWasSent | muduo/muduo/net/protobuf/ProtobufCodecLite.cc:58-97 | Whatever bytes arrive, they are whole frames and a rest; exactly the messages in those frames that the raw callback let through were delivered, in order. |
| ProtobufCodecs.ErrorRepeats | muduo/muduo/net/protobuf/ProtobufCodecLite.cc:58-97 | After an error every later call reports the same error again. |
| ProtobufCodecs.JudgeFrame | muduo/muduo/net/protobuf/ProtobufCodecLite.cc:42-97 | A frame as written is delivered, skipped by the raw callback, or refused for its length, exactly by the size limit. |
| ProtobufCodecs.RoundTrip | muduo/muduo/net/protobuf/ProtobufCodecLite.cc:42-97 | Messages within the limit, encoded one after the other and fed in any chunking, are delivered exactly: all, once, in order. |
| ProtobufCodecs.TooLongIsRefused | muduo/muduo/net/protobuf/ProtobufCodecLite.cc:64-69 | The limit is exact: a message is delivered if and only if its body is at most 64 MB; a longer one is written without complaint and then refused. |
| ProtobufCodecs.CorruptNeverDelivered | muduo/muduo/net/protobuf/ProtobufCodecLite.cc:184-222 | A frame whose checksum does not match, let through by any raw callback, is reported and neither it nor anything after it is delivered. |
| ProtobufCodecs.ProtobufCodecLite.FillEmptyBuffer | muduo/muduo/net/protobuf/ProtobufCodecLite.cc:42-56 | In place over the buffer: the frame, its length put in front last, in the gap. |
| ProtobufCodecs.ProtobufCodecLite.OnReads | muduo/muduo/net/TcpConnection.cc:347-355 | Reads appended to the input buffer and handed on one by one are the session the chunking and round-trip theorems are about. |
| ProtobufCodecs.ProtobufCodecLite.OnMessage | muduo/muduo/net/protobuf/ProtobufCodecLite.cc:58-97 | The loop over the buffer delivers, consumes and reports as the specification the lemmas are about, and terminates. |
| HttpContexts.TrimIsTrimmed | muduo/muduo/net/http/HttpRequest.h:138-147 | The two loops remove exactly the surrounding white space, the six characters isspace knows: what is left begins and ends with something else, and only such characters were cut. |
| HttpContexts.ParseConcat | muduo/muduo/net/http/HttpContext.cc:60-118 | Parsing a piece and then the rest is parsing both at once. |
| HttpContexts.ChunkingIsInvisible | muduo/muduo/net/http/HttpContext.cc:60-118 | Up to the first completed request or the first error, calls on any chunking end in the same state, fields and leftover bytes as one call on the whole, line breaks split between chunks included. |
| HttpContexts.NothingLeftToRead | muduo/muduo/net/http/HttpContext.cc:60-118 | An unfinished call leaves no complete line. |
| HttpContexts.HeadersNeverFail | muduo/muduo/net/http/HttpContext.cc:88-111 | Only the request line can be bad. |
| HttpContexts.ErrorKeepsMethod | muduo/muduo/net/http/HttpContext.cc:71-81 | After an error the bad line is still in front, and another call would fail the assertion in setMethod if and only if the line began with a known method and a space. |
| HttpContexts.RequestRead | muduo/muduo/net/http/HttpContext.cc:60-118 | A well-formed request, in any chunking, is read as itself, headers of equal name last one winning, and what follows it is left alone. |
| HttpContexts.RequestLineRead | muduo/muduo/net/http/HttpContext.cc:16-57 | The text of a well-formed request line is read as its fields. |
| HttpContexts.AcceptedLineIsText | muduo/muduo/net/http/HttpContext.cc:16-57 | Conversely nothing else is accepted: an accepted line is the text of the fields read from it. |
| HttpContexts.HeaderLineRead | muduo/muduo/net/http/HttpContext.cc:93-97 | A header line is read as its name and value. |
| HttpContexts.HeaderLineIsText | muduo/muduo/net/http/HttpContext.cc:93-97 | Whatever its spacing, a line with a colon sets one header: the name as it is, the value without surrounding white space; nothing else changes. |
| HttpContexts.HeadersEnd | muduo/muduo/net/http/HttpContext.cc:99-105 | Any line without a colon ends the headers. |
| HttpContexts.FailsIff | muduo/muduo/net/http/HttpContext.cc:60-87 | A call fails if and only if there is a whole line in front that is not the text of a well-formed request line. |
| HttpContexts.OtherProtocol | muduo/muduo/net/http/HttpContext.cc:16-57 | With another protocol the line is refused, its method, path and query left in the request. |
| HttpContexts.HeadersRead | muduo/muduo/net/http/HttpContext.cc:88-111 | The headers up to the empty line are read in order, the rest left alone. |
| HttpContexts.HttpRequest.SetMethod | muduo/muduo/net/http/HttpRequest.h:53-82 | The method named, false for any other word. |
| HttpContexts.HttpRequest.AddHeader | muduo/muduo/net/http/HttpRequest.h:135-149 | The trimming loops in place set exactly this header, replacing an earlier one of the same name. |
| HttpContexts.HttpContext.ProcessRequestLine | muduo/muduo/net/http/HttpContext.cc:16-57 | Fields and result as the specification says, those set before a failure included. |
| HttpContexts.HttpContext.ProcessTarget | muduo/muduo/net/http/HttpContext.cc:23-54 | The part after the method. |
| HttpContexts.HttpContext.ReadRequestLine | muduo/muduo/net/http/HttpContext.cc:66-87 | One turn: goes on exactly if it consumed a good line. |
| HttpContexts.HttpContext.ReadHeader | muduo/muduo/net/http/HttpContext.cc:88-111 | One turn: goes on exactly if it consumed a header. |
| HttpContexts.HttpContext.ParseRequest | muduo/muduo/net/http/HttpContext.cc:60-118 | Terminates from either reading state; result, state, fields and buffer as the specification; the receive time is that of the call that completed the request line. |
| HttpContexts.NothingReadYet | muduo/muduo/net/http/HttpContext.cc:66-87 | A call that leaves the request line unread has changed no field. |
| HttpContexts.HttpContext.OnReads | muduo/muduo/net/TcpConnection.cc:347-355 | Reads appended and parsed one by one, up to the first request or error, are the feed the chunking theorem is about. |
| HttpContexts.HttpContext.Reset | muduo/muduo/net/http/HttpContext.h:49-54 | Ready for the next request with no field left over. |

## Left out

- System calls, file writing, logging output and `readTimeZoneFile`: their results are parameters; the transition table is an input.
- DancingLinks: nodes are array slots and links are indices; the storage starts zeroed, where the source clears each node as it takes it.
- DancingLinks: `MarkGivens` to `MakeRow`, `TryRow`, `CoverRow`, `UncoverRow`, `ReadRow` and `WriteBoard` are pieces of the constructor and of `solve` as methods of their own.
- Calendar: integers are unbounded; `Calendar.NoOverflow` says how far the 32-bit arithmetic of the conversion from a day number agrees.
- TimeZone: `tm_zone` and the abbreviation table; time types of tables that do not alternate between standard and daylight time.
- TcpConnection: calls from other threads, the input buffer and `forceCloseWithDelay`; the output buffer is a sequence of the Buffer model's bytes, which that model refines.
- TcpConnections.TcpConnection.Run: a connection that its server destroys while half closed is not among the runs; `ConnectDestroyed` says what becomes of it.
- TcpConnections.TcpConnection.ConnectDestroyed: of a half-closed connection it leaves `KernelOK` unpromised, since it is taken out of the kernel's set with interest left.
- TimerQueue: intervals are whole microseconds, where `addTime` multiplies a floating-point interval; the two ordered sets are a sorted sequence and a set.
- TimerQueue: adds and cancels from other threads arrive through the event loop's queue as separate operations; the destructor.
- EventLoop: a state machine over atomic steps rather than a class, so the statement order inside one thread is in which steps are enabled, not in a method body.
- EventLoop: channels are reduced to whether the wakeup channel is active; functors are names, and what they do to the loop is a step of its own.
- AsyncLogging: likewise a state machine, the backend's local variables being part of its state; buffers are known by their lines, `FixedBuffer` tying lines to bytes; `bzero`, flushing, file rolling and the destructor.
- Pollers: growth of the epoll event list, error returns of poll and epoll_wait, `revents_` bits beyond being reported.
- Buffer: `findEOL`, `toStringPiece`, vector capacity; integer operations are one per width in the source and one for all widths here.
- ProtobufCodec: message type, serializer, parser and checksum are parameters, the checksum without any property; an error callback that changes the buffer; the callback's own effects.
- HttpContext: the response side, and pipelined requests after the first, which start from `Reset`.
- Also not modelled: the generic protobuf codec example, multiplexer, timing wheel, proxies, thread pools, blocking queues, RPC channel, connector: easy beside the above, or not correct enough to promise anything.
