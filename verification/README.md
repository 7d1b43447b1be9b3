# Sockets suite: verified model

A Dafny model of the servers, clients and formats of the sockets suite, with proofs about them.
`dafny verify dfyconfig.toml` checks the whole project.

The programs are loops around system calls. `Kernel` is the operating system they talk to: it hands out
any descriptor number that is free, reports any subset of the watched descriptors as ready, delivers input
in any pieces, and takes output in any pieces. It also keeps a log of every event, a `select` without result
among them. A program is a class or
a method with the source's own fields and loops; what it promises is a statement about its log, its state,
or a function of its input.

| file | what it models |
|---|---|
| `Kernel.dfy` | descriptors, peers, the event log; what a legal log implies about opens and closes |
| `UnixServer.dfy` | the `select()` echo server: `master_set`, `max_sd`, `desc_ready` |
| `SimpServer.dfy` | the polling server: client vector, error counts, eviction, statistics |
| `Statistics.dfy` | the counters shared by the polling server and the lock-step client |
| `LockStep.dfy` | the lock-step client |
| `Conversation.dfy` | the lock-step client and the polling server together |
| `SockHelp.dfy`, `Transfer.dfy` | read and write loops over short transfers; what arrives at the other end |
| `NbServer.dfy` | the slot table and the line service |
| `Wire.dfy`, `Header.dfy` | byte order, XDR words, the multiplayer message header |
| `Recording.dfy` | the recording file, its writer, and what a reader gets out of it |
| `Reader.dfy` | the reader of recordings, with its buffer and the motion history |
| `Replay.dfy` | the client that sends a recording over and over |
| `Properties.dfy` | property lists: the verifier, the decoder, and the choice where to start |
| `MpServer.dfy` | the multiplayer server, and the programs together |
| `Motion.dfy` | the motion history |
| `Accumulator.dfy` | the UDP accumulator |
| `GenStg.dfy` | the growable string |

Some properties one would expect turn out false of the code. Each of these is stated with the exact
condition under which it holds, and with an input on which it fails:

- `unix_server` echoes faithfully, on a connection or over all, exactly when no send fails or falls short:
  `EchoIsFaithful`, `ShortSendLosesEcho`.
- A listening socket with number 0, which it has when standard input was closed before the start, is never
  closed by `simp_server`: `Finish` says what stays open, `ListeningZeroStaysOpen` runs into it.
- `mpserver` records a datagram before it looks at it, and one of a foreign format hides the rest of the
  recording from the reader: `RecordingRoundTrip`, `ReaderStopsAtForeign`.
- `mpserver` accepts a datagram that is shorter than a header when the rest of a header is still in its
  buffer, and such a datagram is not delivered by the reader: `AcceptedIsWellFormed`, `SixteenBytesAreAccepted`.
- The property verifier is stricter than the decoder, so that they agree up to one condition:
  `WalkersAgree`, `NaNDividesTheWalkers`. A message with a zero padding word skips the verifier:
  `RefusedExactly`, `UnknownIdIsRefused`.
- `udpserver2` says that it ignores datagrams of other sizes than four bytes, but cuts longer ones to
  four and counts them: `OtherSizesIgnored`, `LongDatagramIsCounted`.
- A format that fails costs `GenStg` one character of the text it holds, and when it holds none its length
  leaves the buffer, so that the next append writes outside: `ConcatenationExactly`,
  `FailureTakesACharacter`, `FailureOnEmptyIsWild`.
- A reset by the user puts a second message under way in the lock-step client: `InFlight`,
  `ResetLetsTwoFly`.

Where a program would read or write outside a buffer its behaviour is not defined. The methods say so in
their result (`TooMuch`, `TooBig`, `OutOfBounds`) and say exactly when it happens.

## Model

| member | source | states |
|---|---|---|
| Kernel.EveryOpenIsClosedOnce | src/unix_server.cxx:482-505 | in any legal log a descriptor that is not open at the end was closed exactly once after each time it was issued |
| Kernel.EveryCloseHasOneOpen | src/unix_server.cxx:482-505 | every close ends the life of exactly one earlier issue, although numbers are re-issued |
| Kernel.EveryLifeEndsOnce | src/unix_server.cxx:482-505 | a descriptor that is open at some time, such as a listening socket, and not at the end was closed, and that life of it ended once |
| UnixServer.EveryReadyServedOnce | src/unix_server.cxx:348-494 | a log that satisfies the server's discipline serves each descriptor that `select` reported exactly once before the next `select`, and not after a close or re-issue |
| UnixServer.ServicesAscend | src/unix_server.cxx:348-357 | within a round services go up, and serve only what was reported ready |
| UnixServer.EchoIsFaithful | src/unix_server.cxx:424-471 | over any stretch of a run that begins and ends with nothing owed, what went back on a descriptor is what came in if and only if no send on it failed or was short |
| UnixServer.EchoOfOneConnection | src/unix_server.cxx:424-471 | so for each single connection, from its opening to its closing, even when its number is used again |
| UnixServer.ShortSendLosesEcho | src/unix_server.cxx:461-469 | a run in which one short send loses part of the echo |
| UnixServer.ClosedExactly | src/unix_server.cxx:482-491 | in the log of the rounds a connection is closed right after its end was seen, or a receive or an echo failed, and at no other time; one that would merely block stays |
| UnixServer.Server.AcceptAll | src/unix_server.cxx:376-409 | takes every waiting connection into the master set, keeps `max_sd` its maximum, disturbs no pending service, and ends the server exactly when the last `accept` failed for a real reason |
| UnixServer.Server.EchoUntilBlocked | src/unix_server.cxx:424-471 | each receive is followed by one echo of the same data; the connection is to be closed unless it ended with "would block" |
| UnixServer.Server.CloseConnection | src/unix_server.cxx:482-491 | one close; the scan-down ends at the exact new maximum, because the listening descriptor never leaves the set |
| UnixServer.Server.ServeConnection | src/unix_server.cxx:418-491 | the connection stays in the master set exactly when its last receive would have blocked; otherwise it is closed at once |
| UnixServer.Server.Round | src/unix_server.cxx:348-494 | all ready descriptors are served although accepts and closes move `max_sd` and the loop stops early; connections that are over are closed and no others; the server is to end exactly when an `accept` failed for a real reason |
| UnixServer.Server.Rounds | src/unix_server.cxx:315-496 | rounds follow one another until `select` reports nothing or an `accept` fails, and no longer |
| UnixServer.Server.Run | src/unix_server.cxx:291-505 | over a whole run: every descriptor issued and the listening descriptor have been closed exactly once, a connection during the rounds exactly when it is over; every ready report is served exactly once; the echo on each connection is faithful exactly where its sends were whole; the rounds go on as long as they must |
| SimpServer.EvictOnceShape | src/simp_server.cxx:588-610 | what one scan-and-erase leaves, also when the index it computes is not that of the freed client |
| SimpServer.EvictOnceCounts | src/simp_server.cxx:588-610 | one scan takes the number of over-limit clients down by one, whichever element it erases |
| SimpServer.EvictionFilters | src/simp_server.cxx:587-611 | scanning and erasing as often as there are over-limit clients is an order-preserving filter |
| SimpServer.EvictionLeavesFreed | src/simp_server.cxx:587-611 | with an unconnected client before an over-limit one, a freed record stays in the vector |
| SimpServer.EvictionExact | src/simp_server.cxx:587-611 | the eviction loop equals the filter if and only if no unconnected client stands before an over-limit one |
| SimpServer.DeadClientMisleadsTheScan | src/simp_server.cxx:587-611 | a vector outside that condition on which the loop drops the wrong client |
| SimpServer.Server.EvictionIsRight | src/simp_server.cxx:587-611 | every run meets the condition: all clients in the vector have connections, so the eviction loop is the filter |
| SimpServer.JustifiedMeans | src/simp_server.cxx:567-612 | the books of a run are justified if and only if every event was in order: closes right at failure (limit + 1), no `select` while someone is past the limit, replies right after what they answer |
| SimpServer.OverLimitIsEvicted | src/simp_server.cxx:581-604 | whoever goes past the limit is closed before the next `select`, or before the run ends |
| SimpServer.HangUpIsNoticed | src/simp_server.cxx:528-531 | the end of a connection is seen at most (limit + 1) times before it is closed, and at most limit times before any `select` |
| SimpServer.Server.SetupFdSet | src/simp_server.cxx:398-409 | the watched set is the listening socket and exactly the clients' descriptors |
| SimpServer.Server.HandleReceive | src/simp_server.cxx:495-565 | one read and at most one reply right after it; it fails exactly when the last event is the end of the stream, a failed reply, or a failed receive that would not merely block; what each of the four counters gains |
| SimpServer.Server.ReceiveAll | src/simp_server.cxx:567-586 | every ready client is read exactly once and no other; each error count equals the failures in the log; `had_errors` is the number of clients over the limit |
| SimpServer.Server.EvictScan | src/simp_server.cxx:587-611 | one scan with its running index does what the specification of a scan says, for any vector |
| SimpServer.Server.EvictAll | src/simp_server.cxx:587-611 | afterwards the vector is the filtered one, in order, each evicted connection closed once, and the invariant between calls holds again |
| SimpServer.Server.ProcessClients | src/simp_server.cxx:567-612 | the vector becomes the previous one, with failures counted, filtered by the limit |
| SimpServer.Server.AddClient | src/simp_server.cxx:634-681 | a new descriptor is appended and counted, a known one changes nothing |
| SimpServer.Server.AcceptOne | src/simp_server.cxx:453-465 | a connection accepted is appended with no errors against it; a failed `accept` leaves the vector alone |
| SimpServer.Server.CheckKey | src/simp_server.cxx:303-344 | which keys flush the statistics, without losing a count; escape asks to leave; `e` and `p` toggle |
| SimpServer.Server.ShowStats | src/simp_server.cxx:246-271 | flushing moves the counters into the totals and loses nothing |
| SimpServer.Server.Cycle | src/simp_server.cxx:422-469 | unless paused or told to leave a cycle calls `select` once; when the listening socket is ready it only accepts, otherwise it serves and filters the clients; it ends the run exactly on escape or a failing `select` |
| SimpServer.Server.RunServer | src/simp_server.cxx:411-473 | a cycle for each key, with a `select` in each that is not paused, until escape or a failing `select` |
| SimpServer.Server.ClearClientList | src/simp_server.cxx:614-632 | every client still in the vector is closed and nothing else |
| SimpServer.Server.Finish | src/simp_server.cxx:1040-1053 | the totals shown last are the true ones; only what was open before stays open, and a listening socket with number 0 |
| SimpServer.Server.KeepsOrder | src/simp_server.cxx:567-612 | at every point of a run of the server, every event so far was in order |
| SimpServer.ListeningZeroStaysOpen | src/simp_server.cxx:1040-1053 | a run that leaves the listening socket open |
| SimpServer.Server.Serve | src/simp_server.cxx:411-473 | over a whole run: each client is closed exactly once; a client is evicted if and only if it fails (limit + 1) times, and then before the next `select`; `total_clients` counts the accepted, and no count is lost over any number of flushes |
| LockStep.SendsKeepStep | src/simp_client.cxx:498-554 | sends plus unasked answers equal answers plus resets, plus one while waiting; so sends exceed answers and resets by one at most |
| LockStep.OnlyAnswerOrResetResumes | src/simp_client.cxx:581-630 | between two sends there is an answer or an effective reset, whatever connections were lost and made |
| LockStep.PatienceIsSpent | src/simp_client.cxx:592-621 | once a socket was given up, the first failure of the next one ends it too unless data arrived |
| LockStep.QuietTurn | src/simp_client.cxx:465-496 | nothing is sent or received while throttled, told to leave, or paused |
| LockStep.BusyTurn | src/simp_client.cxx:498-630 | in an undisturbed turn the client sends if it does not wait, and receives what is there |
| LockStep.SimpClient.CheckKey | src/simp_client.cxx:229-293 | all keys up to an escape are taken; `r` counts only while waiting; the statistics lose nothing |
| LockStep.SimpClient.DoClientConnect | src/simp_client.cxx:368-442 | succeeds unless the socket fails or escape is typed; whether an answer is awaited survives, except for a reset typed meanwhile |
| LockStep.SimpClient.SendNext | src/simp_client.cxx:498-554 | a successful write counts one send and its bytes and, unless the user leaves, starts waiting; a failed one changes nothing |
| LockStep.SimpClient.ReceiveNext | src/simp_client.cxx:581-635 | data counts, clears the errors and ends the waiting; a failure adds to them; the socket is given up, or the run ended, exactly past the limit |
| LockStep.SimpClient.Cycle | src/simp_client.cxx:457-636 | exactly under which outside conditions a pass sends, receives, gives the socket up, or ends the run and with which code; the log keeps its discipline and the statistics their sums |
| LockStep.SimpClient.Run | src/simp_client.cxx:445-641 | for any run the discipline of the log holds, so do all of the above, and the totals are true |
| Conversation.ServerOnlyReplies | src/simp_server.cxx:533-563 | in the log of any run of the server, on each connection a send comes right after what it answers |
| Conversation.InFlight | src/simp_client.cxx:498-630 | client and server under any interleaving: what is under way is bounded by the resets plus the awaited answer, with equality, counting the unanswered, while no socket is given up |
| Conversation.OneInFlight | src/simp_client.cxx:498-630 | for a connection in a run of the server, with no reset and no reconnection: at most one message or answer is under way, and just while the client waits |
| Conversation.ResetLetsTwoFly | src/simp_client.cxx:267-273 | a run in which a reset puts two messages under way |
| SockHelp.SockRead | src/sockhelp.c:221-242 | code, bytes stored and input left are those of the chunk-free specification, with EINTR repeated |
| SockHelp.SockWrite | src/sockhelp.c:246-266 | code, bytes taken and outcomes left likewise; a write of nothing ends it |
| SockHelp.SockGets | src/sockhelp.c:311-341 | the line, its code and the input left are those of the specification; nothing past the terminator is touched |
| SockHelp.TcpReadFully | src/ebsocket.c:376-391 | the same without repeating EINTR |
| SockHelp.TcpWrite | src/ebsocket.c:393-406 | the same; a write of nothing is tried again |
| Transfer.ReadTakesPrefix | src/sockhelp.c:221-242 | a read gets exactly the next bytes asked for, in order, for any chunking; if the stream ends first it gets all of it and its length |
| Transfer.TransferRoundTrip | src/sockhelp.c:221-266 | what one end wrote in full the other end reads back identically, for every schedule of both; otherwise the reader gets the prefix taken |
| Transfer.WillingTakesAll | src/sockhelp.c:246-266 | however small the pieces, everything gets through |
| Transfer.ReadStops | src/sockhelp.c:221-242 | at a failure or the end of the stream the reader has all that came before; the code is -1 or the count |
| Transfer.WriteStops | src/sockhelp.c:246-266 | at a failure, or for `sock_write` a write of nothing, exactly what came before has been taken, and the code says which it was |
| NbServer.GetsTakesLine | src/sockhelp.c:311-341 | from any input at all, in any chunks and with pauses and errors, one call takes what comes before the next line feed, pause or error, keeps what fits, and leaves exactly what follows |
| NbServer.FreedExactly | src/nbserver.cxx:281-323 | on any input the slot is freed if and only if nothing comes before the next line feed or pause, or an error ends it |
| NbServer.OneRound | src/nbserver.cxx:271-324 | any other round sends back what was there, cut to 128 characters, with a line feed of its own; small letters come back as the capitals at the same place of the alphabet and all else unchanged |
| NbServer.LineService | src/nbserver.cxx:271-324 | whole lines, and pieces of lines when the sender pauses, come back as upper case of their first 128 characters and a line feed, concatenated, for any chunking of input and replies |
| NbServer.RepliesByCharacter | src/nbserver.cxx:299-310 | the replies to a sequence of pieces, one by one and character by character |
| NbServer.LiveUpdate | src/nbserver.cxx:218-229 | taking or freeing a slot adds or removes exactly that connection and keeps the slots distinct |
| NbServer.Server.BuildSelectList | src/nbserver.cxx:165-183 | the watched set is the listening socket and the non-zero slots, all of them at most `highsock` |
| NbServer.Server.Place | src/nbserver.cxx:218-229 | the connection goes into the lowest free slot, or nowhere if there is none |
| NbServer.Server.HandleNewConnection | src/nbserver.cxx:185-248 | a connection is told off and closed exactly when all slots are taken, and otherwise has the lowest free one; other connections are untouched |
| NbServer.Server.Admit | src/nbserver.cxx:218-235 | the same for a connection already accepted: the whole message is tried on it before it is closed |
| NbServer.Server.UpperInPlace | src/nbserver.cxx:299-304 | small letters among the characters read become capitals where they are; everything else in the buffer is unchanged |
| NbServer.Server.DealWithData | src/nbserver.cxx:271-324 | slot, connection and descriptors become what the line specification says; no other connection is touched |
| NbServer.Server.ReadSocks | src/nbserver.cxx:326-343 | each connection that was ready is served once, by its slot; one accepted in this round is not read in it |
| NbServer.Server.Loop | src/nbserver.cxx:424-454 | round after round, with one `select` each, until escape, a failing `select` or a failing `accept` |
| NbServer.Server.Run | src/nbserver.cxx:409-455 | over any run the open connections are exactly the non-zero slots, which are distinct; every other one and the listening socket were closed exactly once |
| Wire.SwapReverses | src/simgear/fgmpmsg.hxx:32-36 | a 32-bit swap reverses the bytes and undoes itself |
| Wire.SwapReverses64 | src/simgear/fgmpmsg.hxx:37-42 | a 64-bit swap swaps each half, exchanges them, and undoes itself |
| Wire.XdrIsBigEndian | src/simgear/fgmpmsg.hxx:287-330 | on either kind of machine encoding stores big-endian bytes and decoding reads them, as in section 3.2 of RFC 1832 |
| Wire.ValueOfSum | src/udpserver2.cxx:243 | adding words adds the numbers that their bytes stand for, modulo 2 to the 32 |
| Header.HeaderRoundTrip | src/simgear/fgmpmsg.hxx:333-361 | a filled header decodes to its fields, for every callsign that fits, with the length each kind of message has |
| Header.FillMsgHdr | src/simgear/fgmpmsg.hxx:333-361 | the exact bytes written, on either kind of machine; a callsign that is too long leaves its field alone and fails |
| Header.GetXdr | src/simgear/fgmpmsg.hxx:287-330 | reading a field gives the big-endian word at its place |
| Recording.Recorder.WriteRawData | src/simgear/mpserver.cxx:105-126 | the file grows by a prefix of the message's frame, all of it when nothing falls short; it is abandoned exactly after a short first write |
| Recording.Recorder.FillPadding | src/simgear/mpserver.cxx:115-123 | the two loops fill up to a multiple of 16 and add 16 |
| Recording.PadLenIs | src/simgear/mpserver.cxx:115-123 | a message and its padding fill lines of 16 bytes, and one line more |
| Recording.RecordingRoundTrip | src/simgear/fgmp_msg.cxx:651-707 | reading a recording gives back exactly the recorded messages if and only if all of them are well-formed and fit the buffer, and then the buffer is not overrun |
| Recording.ParseIsWellFormed | src/simgear/fgmp_msg.cxx:651-707 | from any file at all the reader delivers only well-formed messages |
| Recording.ReaderStopsAtForeign | src/simgear/fgmp_msg.cxx:660-684 | a recorded message of a foreign format hides everything after it |
| Reader.TotalsOfRecording | src/simgear/fgmp_msg.cxx:686-737 | on a recording the totals are the number of messages, the sum of their lengths and the size of the file; the bad ones are those of another kind and the positions that are skipped, have an unknown property or come late |
| Reader.SampleIsRead | src/simgear/fgmp_msg.cxx:305-615 | a position message put together from header, time, pose and properties is bad exactly without a time, at the invalid altitude or when late; otherwise the history keeps its time, its pose and its properties |
| Reader.OtherKinds | src/simgear/fgmp_msg.cxx:708-732 | a chat message is fine; any other kind but a position is bad and fails the file |
| Reader.NothingOfUse | src/simgear/fgmp_msg.cxx:651-683 | what is reported for a file without a header or with something foreign at its start |
| Reader.Reader.DecodeHeader | src/simgear/fgmp_msg.cxx:662-667 | the fields of the header, decoded in place, with nothing behind it touched |
| Reader.Reader.ReadMessage | src/simgear/fgmp_msg.cxx:651-693 | one message in the buffer or the reason to stop, with the unsigned arithmetic of the body's length, and exactly when the buffer is overrun |
| Reader.Reader.ProcessPosMsg | src/simgear/fgmp_msg.cxx:305-615 | a message is refused, and the history unchanged, exactly without a time, at the invalid altitude, with an unknown property, or at most ten seconds behind the newest; otherwise the map has it, as the newest, under its time |
| Reader.Reader.TestFgmpMessage | src/simgear/fgmp_msg.cxx:633-737 | on any file the loop delivers the messages, the report and the history of the specification, and overruns its buffer exactly when that says so; for a recording of one position message, what is reported and what the map then holds |
| Replay.Client.FillPosMsg | src/mpclient.cxx:180-239 | takes the message at the current position, or at the beginning when no header is left; the padding read over the header leaves the body alone; otherwise the file is given up, or the buffer overrun, exactly as specified |
| Replay.Client.SendOne | src/mpclient.cxx:282-309 | the datagram is a fresh header and the old body: all 32 bytes that the padding spoiled are rewritten |
| Replay.HeaderCovered | src/mpclient.cxx:289-293 | the seven-character callsign and its terminator end exactly where the header does |
| Replay.FetchesRecord | src/mpclient.cxx:196-232 | at the boundary of a message the client fetches that message, at the end the first |
| Replay.RecordingFits | src/mpclient.cxx:180-239 | messages that tell their length never make the client overrun its buffer if and only if all of them fit |
| Replay.GivesUpExactly | src/mpclient.cxx:190-226 | the file is given up exactly when it has no header left, no body, or ends within a message |
| Replay.BlankDecodes | src/mpclient.cxx:282-309 | what is sent after that decodes as a position message of the client |
| Replay.Client.Replay | src/mpclient.cxx:265-309 | datagram k carries the body of message k modulo the number of messages, for any number of sends |
| Properties.FindProperty | src/simgear/fgmpmsg.hxx:542-552 | the search finds the first entry with the id, or none |
| Properties.EntryAgrees | src/simgear/mpserver.cxx:224-289 | verifier and decoder step over an entry alike, and the verifier accepts just the known and acceptable ones |
| Properties.AcceptableExactly | src/simgear/mpserver.cxx:240-280 | what the verifier demands: numbers and texts always pass, floats unless they are not a number, and nothing else |
| Properties.WalkersAgree | src/simgear/mpserver.cxx:224-289 | the verifier accepts a list if and only if the decoder meets no unknown id and reads acceptable properties only; then both visit the same ids and stop at the same word |
| Properties.NaNDividesTheWalkers | src/simgear/mpserver.cxx:224-289 | a list that the verifier rejects and the decoder reads |
| Properties.RefusedExactly | src/simgear/mpserver.cxx:317-404 | a position message is refused if and only if its padding word is zero and an id is unknown |
| Properties.UnknownIdIsRefused | src/simgear/mpserver.cxx:317-404 | a message that is refused |
| Properties.PropertyRoundTrip | src/simgear/mpserver.cxx:325-402 | any list of known, type-correct properties decodes to exactly that list |
| Properties.TakesItem | src/simgear/mpserver.cxx:325-402 | an entry takes two words, or two and its text rounded up to four, also when it announces more than it holds |
| Properties.WalksAreLocal | src/simgear/fgmp_msg.cxx:158-223 | the walks depend on no word before their start |
| Properties.VerifyProperties | src/simgear/mpserver.cxx:224-289 | the verifying loop computes the walk of the specification |
| Properties.DecodeProperties | src/simgear/mpserver.cxx:325-404 | the decoding loop computes the properties, the stopping word and the return code of the specification |
| Properties.ListIsFound | src/simgear/mpserver.cxx:317-324 | a list of acceptable properties is found and read where old senders put it, and one right after the position where it is expected |
| Properties.ProcessPosMsg | src/simgear/mpserver.cxx:317-404 | a list in the padding word, or after it when the padding word is zero or starts no list, is read in full; when neither is a list nothing is read and the message is not refused |
| MpServer.RosterIsStable | src/simgear/mpserver.cxx:558-572 | an id once given stays, whatever arrives later |
| MpServer.RosterIsExact | src/simgear/mpserver.cxx:558-572 | the list has each accepted callsign once and no other |
| MpServer.NumberingIsBijection | src/simgear/mpserver.cxx:558-572 | the ids are a bijection between the callsigns and 1 to their number |
| MpServer.AcceptedIsWellFormed | src/simgear/mpserver.cxx:494-524 | what the server accepts, the reader of its recording delivers if and only if it has a whole header of its own |
| MpServer.SixteenBytesAreAccepted | src/simgear/mpserver.cxx:494-524 | sixteen bytes that are accepted, under the callsign an earlier datagram left in the buffer |
| MpServer.FreshHeaderPasses | src/simgear/mpserver.cxx:494-524 | a header from `myFillMsgHdr` passes every check and gives its callsign; only properties can make the message invalid |
| MpServer.AcceptsExactly | src/simgear/mpserver.cxx:494-557 | acceptance in terms of the words of the datagram and the decoding of its properties |
| MpServer.ReplayIsAccepted | src/mpclient.cxx:282-309 | a message once accepted is accepted again when it is replayed, under the replaying client's callsign |
| MpServer.TouchedKeepsProperties | src/simgear/mpserver.cxx:494-503 | the writes of the header check leave the properties as they were |
| MpServer.Server.CheckHeader | src/simgear/mpserver.cxx:494-524 | exactly which headers pass, and what the check writes into the buffer |
| MpServer.Server.Check | src/simgear/mpserver.cxx:494-557 | a datagram is valid exactly when its header passes, it is a position message and its properties are not refused |
| MpServer.Server.Register | src/simgear/mpserver.cxx:558-572 | a new callsign gets the next id, a known one keeps its own; `client_id`, `total_clients` and the size of the list stay equal |
| MpServer.Server.Handle | src/simgear/mpserver.cxx:482-572 | a datagram is recorded before it is checked, accepted exactly when header and properties pass, and no id changes |
| MpServer.Server.Run | src/simgear/mpserver.cxx:407-601 | over any run the list numbers the callsigns of exactly the accepted datagrams, in order of first appearance, with ids 1 to `client_id`; the counters, the recording and the return code match what arrived |
| Motion.KeptInOrder | src/simgear/fgmp_msg.cxx:136-156 | whatever arrives, the packets kept are in order of time |
| Motion.KeptSinceRestart | src/simgear/fgmp_msg.cxx:136-156 | a packet more than ten seconds late restarts the history; what is kept are the arrivals since then without the late ones |
| Motion.TimesKept | src/simgear/fgmp_msg.cxx:136-156 | the map has exactly the times of the packets kept |
| Motion.LastPacketWins | src/simgear/fgmp_msg.cxx:136-156 | under a time stamp is the last packet that has it |
| Motion.NewestIsLast | src/simgear/fgmp_msg.cxx:136-156 | the largest key is the time accepted last |
| Motion.FateByMap | src/simgear/fgmp_msg.cxx:136-156 | dropping and keeping in terms of the map alone |
| Motion.History.AddMotionInfo | src/simgear/fgmp_msg.cxx:136-156 | the map stays the history of all arrivals; a packet is dropped if and only if it is older than the newest by at most ten seconds, replaces everything if by more, and is entered under its time otherwise |
| Accumulator.OtherSizesIgnored | src/udpserver2.cxx:234-258 | other sizes are ignored, as announced, if and only if no datagram is longer than four bytes |
| Accumulator.LongDatagramIsCounted | src/udpserver2.cxx:234-241 | any longer datagram counts by its first four bytes |
| Accumulator.AnswerDecodes | src/udpserver2.cxx:244-248 | on either kind of machine the k-th answer decodes to the sum of the first k increments |
| Accumulator.SumAppend | src/udpserver2.cxx:243 | the wrapping sum does not depend on where one starts counting |
| Accumulator.ValueOfTotal | src/udpserver2.cxx:243 | the running total stands for the sum of the numbers asked for, modulo 2 to the 32 |
| Accumulator.Serve | src/udpserver2.cxx:231-260 | the number in the k-th answer is the sum of the first k numbers asked for, modulo 2 to the 32; at the loop head the count is that sum in host order; short datagrams change nothing; the service ends exactly at a failed receive or a failed answer |
| GenStg.FailuresCost | src/GenStg.cxx:54-86 | each failed append since the string was emptied costs one character, or the place in the buffer |
| GenStg.ConcatenationExactly | src/GenStg.cxx:29-86 | the string is the concatenation since it was last emptied if and only if nothing has failed since |
| GenStg.FailureTakesACharacter | src/GenStg.cxx:54-86 | a failed append that takes away what an earlier one put there |
| GenStg.FailureOnEmptyIsWild | src/GenStg.cxx:54-86 | a failed append on an empty string, after which the next one writes outside the buffer |
| GenStg.CStringIs | src/GenStg.hxx:15 | a reader of the buffer as a C string finds just the text |
| GenStg.Vsnprintf | src/GenStg.cxx:72-80 | as much as fits, a terminator, and the full length as the result |
| GenStg.GenStg.GrowAndFormat | src/GenStg.cxx:73-81 | the new size is a multiple of 64 with room for the text; the text before is kept and the cut one completely overwritten |
| GenStg.GenStg.MAppendf | src/GenStg.cxx:54-86 | the new text follows the old one and is terminated inside the buffer; a failed format shortens the length by one in `size_t` arithmetic; the text goes outside the buffer exactly when the length lies there |
| GenStg.GenStg.Appendf | src/GenStg.cxx:45-52 | for text without a zero character, the string stays terminated at its length if and only if the format succeeded |
| GenStg.Run | src/GenStg.cxx:29-86 | any sequence of operations: the buffer holds what the specification says, with size and terminator as they should be, unless it runs out of memory or appends to a string whose length lies outside the buffer |

## Left out

- Real system calls, name lookup, clocks, sleeping, the keyboard and all printing: they are choices of the `Kernel`, parameters of a turn, or absent.
- Windows branches and tools, the other `udp*`, `nb*` and `tcp*` programs, `httpget`, `http_server`, command lines, `fork`, SSL and the logging of messages.
- Geodesy and quaternions. Positions and floats are words that are carried along; only "is not a number" is looked at.
- Width of counters: statistics, ids and error counts do not wrap around here, nor do file positions.
- The limit of `FD_SETSIZE` on descriptor numbers.
- Infinite runs: every run of a server is finite, because the `Kernel` has a finite, arbitrary amount of news; the same holds for scripts of turns, arrivals and rounds.
- What a program does after it has read or written outside a buffer.
- Order and aliasing of client records in `simp_server`: a record is a value, and `freed` marks one given back.
- SimpServer.Server.constructor: asks that descriptor 0 is in use when the server starts. It always is, since `socket()` takes the lowest free number: either it was taken before, or the listening socket has it.
- NbServer.Server.constructor: asks the same, for the same reason.
- Conversation.OneInFlight: is about connections that deliver each message and each answer whole.
- Reader.Reader.TestFgmpMessage: the value of a double and the altitude of a position are parameters, as are the table of known properties and the words behind the buffer.
- Properties.ProcessPosMsg: the table of known properties is a parameter, the fields before the properties are not looked at, and words past the end of the buffer have arbitrary values.
- MpServer.Server.Run: leaves out the client addresses, and the echo of messages, which no statement of the program ever turns on.
- Motion.History.AddMotionInfo: time stamps are exact reals, without rounding and without "not a number".
- GenStg.GenStg.Realloc: running out of memory ends the program; the unchecked first allocation is taken to succeed.
- The throttle of `simp_client` is a choice per turn, and its message text and log are left out.
- `sock_puts`, which only passes on the length of its text, and `bswap_16`, which nothing here uses.
- Texts of replies in `simp_server`, which hold the time of day, are arbitrary.
