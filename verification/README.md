# Verification of the SMC firmware core

A Dafny model of six stateful parts of the firmware of a system management
controller, with proofs about all their runs. Run `dafny verify dfyconfig.toml`
in this directory to check everything.

* **Serial framing** (`AltoCodec`, `Uart`, `AltoStringReceiver`,
  `AltoStringTheorems`, `AltoFsmReceiver`, `AltoAgreement`, `AltoTiming`,
  `AvdsReceiver`, `AvdsTheorems`, `AvdsTiming`). A 32-byte frame with an XOR check byte travels as `AA55`, 64
  hex digits, CR and LF. Two receivers recover it from a noisy byte stream: one
  searches a growing string, one is a state machine. A third receiver takes
  length-prefixed binary packets through a block of allocated memory. A call is
  driven by the answers of the UART to "how many bytes have come"; 0 is an idle
  tick.
* **CAN driver** (`BitMask`, `CanPort`, `CanDriver`, `CanSystem`, `CanRuns`,
  `CanOwnership`, `CanReceive`, `CanStale`, `CanController`). 32 hardware message objects are shared out
  among the open handles by a bit mask, and each writing handle sends through a
  ring buffer, a counting semaphore and one mailbox, between task code and the
  interrupt handler.
* **SPI driver** (`SpiTransfer`, `SpiOverlap`, `SpiPolling`, `SpiLifecycle`,
  `SpiRaces`, `SpiDriver`). A
  transfer by DMA in interrupt-driven chunks of at most 1024 elements against the
  polling loop, with buffers that may overlap; and the life of transactions with
  completion, cancel and timeout.
* **HTTP server** (`HttpRequest`, `HttpFraming`, `HttpAnswers`, `HttpConnection`,
  `HttpSessions`). The line reader, the framing of requests on a persistent
  connection, and the bounded linked list of sessions.
* **Discrete I/O** (`DioDebounce`, `DioEdges`, `DioBlink`, `DioManager`).
  Debounce with auto-repeat, edge counters, toggles and blinking outputs, tick by
  tick.
* **Virtual sockets** (`SocketTable`, `SocketSelect`, `SocketNdk`,
  `SocketLayer`). The table of virtual descriptors over the interfaces' own
  tables, and `select` through two translations.

Each part has a specification on values (what one step does, and the runs made of
steps), imperative code in the source's form that is proved to do exactly those
steps, and theorems about the runs. Clocks, the UART, the CAN mailboxes, the SPI
slave, the DMA's timing, the TCP stream and the network stack's wait are
parameters or nondeterministic steps. `Options` and `Integers` hold what the parts
share.

## Where the code does not do what one might expect

The theorems say exactly when the intended property holds; these are the cases
where it does not.

* The ALTO state machine misses a frame behind noise that ends in an odd number of
  A's, and the AVDS one behind an odd number of AA bytes: a third prefix byte
  starts over one byte too late (`AltoAgreement.FsmReceives`,
  `AvdsTheorems.PreambleBehindNoise`).
* A CAN handle closed with a frame at the hardware, or while it receives, leaves its
  message object as it was (`CanRuns.CloseIsCleanIff`). The object's interrupt then
  gives the next handle that writes through it a slot it does not have, or loses a
  frame of it (`CanRuns.EventKeepsInvIff`, `CanStale.StaleRuns`); while nobody owns
  the object, its interrupt is not acknowledged (`CanRuns.UnownedIsIgnored`).
* With the SPI receive buffer a little above the transmit buffer, polling sends an
  answer again where the DMA can still send the original
  (`SpiOverlap.RefinesIff`).
* The last SPI interrupt between a timeout and the cancel's read of the status
  leaves that read with a NULL transaction (`SpiRaces.FaultWindow`); between that
  read and the cancel's critical section it makes the call return false for a
  transfer that is complete (`SpiRaces.QuietWindow`).
* An SPI cancel or timeout after the last move of a chunk and before its interrupt
  reports one element too few (`SpiRaces.CanceledCountIff`).
* In callback mode, an SPI cancel that comes while its transaction is still being
  set up gives back a wrong count, and the set-up goes on to a DMA whose interrupt
  finds no transaction (`SpiRaces.EarlyCancelIff`).
* The HTTP server compares field names case by case, while they are
  case-insensitive by section 3.2 of RFC 7230 (`HttpFraming.AlignedIff`,
  `HttpFraming.SpellingDecides`).
* A full session list gives up its oldest session even when pruning alone would
  make room (`HttpSessions.OldestLostIff`).
* One released sample during auto-repeat ends the repetition while the key stays
  held (`DioDebounce.GlitchEndsRepeat`).
* A blinking output is on for DOA + 1 of DOB + 1 ticks; the comment at
  DiscreteIO/DIO.c:431-432 says DOA of DOB (`DioBlink.DutyCycle`).
* A socket's real descriptor is free for others before its virtual one is
  (`SocketTable.CloseWindow`); a wait on both then reports either in a set that only
  the other was asked for in (`SocketSelect.WrongIff`).
* The interface's `select` takes the error of a descriptor from 32 on for "set"
  (`SocketNdk.SocketsAsked`).

## Model

| member | source | states |
|---|---|---|
| AltoCodec.BccCalculate | Deprecated/ALTO/ALTOInterface.c:29-40 | The loop computes the XOR of the first 31 bytes. |
| AltoCodec.BccFill | Deprecated/ALTO/ALTOInterface.c:42-52 | The last byte becomes that XOR, the others stay, and the frame then passes the check. |
| AltoCodec.BccCheck | Deprecated/ALTO/ALTOInterface.c:55-65 | The loop computes the XOR of all 32 bytes. |
| AltoCodec.CheckIsZeroIffFilled | Deprecated/ALTO/ALTOInterface.c:29-65 | The check is 0 if and only if the check byte is the XOR of the others. |
| AltoCodec.CorruptionUndetectedIff | Deprecated/ALTO/ALTOInterface.c:55-65 | A corrupted frame passes if and only if the corruption XORs to 0. |
| AltoCodec.SingleByteErrorDetected | Deprecated/ALTO/ALTOInterface.c:55-65 | Any real change of one byte makes the check non-zero. |
| AltoCodec.CreateAscii | Deprecated/ALTO/ALTOInterface.c:67-93 | The loop writes exactly the 70 characters of the encoding and nothing behind them. |
| AltoCodec.ConvertAsciiToBinary | Deprecated/ALTO/ALTOInterface.c:95-123 | The loop writes the decoded 32 bytes, for any text, with the uninitialised variable of a non-digit as a parameter. |
| AltoCodec.HexIsSixteens | Deprecated/ALTO/ALTOInterface.c:82-87 | Each byte is written as the digit of its sixteens and then the digit of its ones. |
| AltoCodec.DecodeEncode | Deprecated/ALTO/ALTOInterface.c:67-123 | Decoding the payload of an encoded frame gives the frame back. |
| AltoCodec.EncodeDecode | Deprecated/ALTO/ALTOInterface.c:67-123 | Encoding what was decoded from 64 hex digits gives them back in upper case. |
| AltoCodec.SingleDigitErrorDetected | Deprecated/ALTO/ALTOInterface.c:55-123 | With one hex digit of the text replaced, the decoded frame passes the check if and only if the digit's value is the same. |
| AltoCodec.HexIsUpperCaseDigits | Deprecated/ALTO/ALTOInterface.c:82-87 | The payload consists of capital hex digits, so it has no CR and survives capitalising. |
| AltoStringReceiver.DrainDeliversLines | Interfaces/IFUART.cpp:634-653 | The inner loop, with its in-place cutting, terminates and delivers exactly the payloads of the lines: for each line with a header, what follows its first header, if at most 64 characters. |
| AltoStringReceiver.DrainLoop | Interfaces/IFUART.cpp:634-653 | The loop as written leaves the rest and the caller's buffer that the specification gives. |
| AltoStringReceiver.FeedBounds | Interfaces/IFUART.cpp:625-666 | The string has at most 380 characters at the loop head and 508 right after a read, and what is kept is always a suffix of what was there. |
| AltoStringReceiver.KeepsBufferOk | Interfaces/IFUART.cpp:654-661 | When more than 256 characters are left they start with a header, so the backward search never fails; trimming restores the invariant. |
| AltoStringReceiver.ReceiveAltoFrame | Interfaces/IFUART.cpp:605-671 | The do/while loop consumes, returns and writes what the run of the specification says, for every arrival pattern. |
| AltoStringTheorems.BoundIsReached | Interfaces/IFUART.cpp:625-666 | The bound of 380 is the least: three reads reach it. |
| AltoStringTheorems.RunIsSound | Interfaces/IFUART.cpp:605-671 | Over any stream and arrival pattern, each delivered payload stands in the capitalised input between `AA55` and a CR, has at most 64 characters and no CR. |
| AltoStringTheorems.RoundTrip | Interfaces/IFUART.cpp:605-671 | For every frame, noise without `AA55`, continuation, arrival pattern and time limit, the call delivers if and only if it has read up to the CR; it then delivers the 64 digits that decode to the frame, and behind them what the further lines of its last read carry. |
| AltoStringTheorems.RoundTripAlone | Interfaces/IFUART.cpp:605-671 | If no further line ends in the last read, the frame is all that is delivered, 64 is returned, and the caller's buffer starts with its digits and is otherwise as before. |
| AltoStringTheorems.OverlayAt | Interfaces/IFUART.cpp:643-648 | Of several payloads of one read the caller's buffer shows, at each place, the last one that is long enough, and elsewhere what was there before. |
| AltoStringTheorems.DeliveredInTime | Interfaces/IFUART.cpp:605-671 | If the line comes in before the idle ticks use up the time limit, the frame is delivered, first of all, whatever follows. |
| AltoTiming.StringTimesOutIff | Interfaces/IFUART.cpp:605-671 | A call times out if and only if as many turns as it has ticks find nothing before one that delivers; with `BIOS_WAIT_FOREVER` it never does, and with no ticks it makes one turn. |
| AltoFsmReceiver.RunIsBytes | Interfaces/IFUART.cpp:1001-1141 | Independence from chunking: the machine a call ends with depends only on the bytes it has consumed. |
| AltoFsmReceiver.ReceiveAltoFrameFsm | Interfaces/IFUART.cpp:1001-1141 | The loop as written consumes, returns and writes what the run of the specification says. |
| AltoTiming.FsmTimesOut | Interfaces/IFUART.cpp:995-1141 | With more ticks than idle turns a call does what it does with any more; with no more it ends unfinished. |
| AltoAgreement.PayloadOnlyBehindHeader | Interfaces/IFUART.cpp:1011-1078 | The machine enters its payload state only right after `AA55` in either case. |
| AltoAgreement.HeaderBehindNoise | Interfaces/IFUART.cpp:1011-1078 | A header behind noise is taken if and only if the noise ends in an even number of A's. |
| AltoAgreement.FsmReceives | Interfaces/IFUART.cpp:1001-1141 | On an encoded frame behind noise, whatever follows, the call returns 70 on the message's bytes if and only if the noise ends in an even number of A's and the message was read; then it delivers the digits, and it never reads further. |
| AltoTiming.MessageInTime | Interfaces/IFUART.cpp:995-1141 | Behind noise that ends in an even number of A's the call finishes if and only if the answers bring it to the message's end in fewer idle turns than it has ticks; otherwise it returns how much of the message it has read, and the digits are in the buffer once all of them have come. |
| AltoAgreement.ReceiversAgree | Interfaces/IFUART.cpp:605-671 | Behind noise that does not end in an A, whatever follows, both receivers deliver the same 64 characters first of all, each with its own chunking. |
| AltoAgreement.ReceiversDisagree | Interfaces/IFUART.cpp:1040-1044 | Behind a single `A` the string receiver delivers and the state machine does not. |
| AvdsReceiver.RunIsBytes | Interfaces/IFUART.cpp:739-922 | Independence from chunking, and no byte is consumed behind a final state. |
| AvdsReceiver.PayloadRead | Interfaces/IFUART.cpp:860-883 | One read of the payload; the branch with the error read cannot be taken. |
| AvdsReceiver.ReceiveAvdsFrame | Interfaces/IFUART.cpp:739-937 | The loop consumes, returns and writes what the specification says, no write passes `length`, and every block allocated during the call is freed exactly once with its own size, timeouts included. |
| AvdsTheorems.PreambleBehindNoise | Interfaces/IFUART.cpp:748-806 | The preamble behind noise is taken if and only if the noise ends in an even number of AA bytes. |
| AvdsTheorems.PacketArrivesVerbatim | Interfaces/IFUART.cpp:739-937 | The call completes if and only if it has read up to the packet's end, never reads further, returns n + 6, and the output is the wire's n + 6 bytes if it has room. |
| AvdsTheorems.LongPacketRefused | Interfaces/IFUART.cpp:815-839 | For a length of 64 or more, or without memory, and every arrival pattern, the call is refused if and only if it has read the length, reads no further and returns 4; for 64 or more it has written only the preamble, otherwise the length too. |
| AvdsTheorems.EndIsCompleted | Interfaces/IFUART.cpp:903-922 | A packet that is complete when a turn ends is handed out in every call. |
| AvdsTiming.TimesOutIff | Interfaces/IFUART.cpp:745-922 | On any stream, a call times out if and only if as many turns as it has ticks read nothing before it is completed or refused; a single byte of the length counts as nothing. |
| AvdsTiming.PacketInTime | Interfaces/IFUART.cpp:745-937 | On a packet behind noise, the answers alone decide: timed out if so many turns take nothing before the packet's end, else completed with n + 6 if they reach the end, else still waiting just as far as they reach. |
| AvdsTiming.PartialPacket | Interfaces/IFUART.cpp:884-899 | A call that times out in the packet returns how much of it it has read, and the buffer starts with just that, the data only if there is room. |
| BitMask.PositionsOfOperations | CANMSP432E4.c:541-583 | The mask operations are union, intersection and difference of the sets of bit positions. |
| CanPort.StepKeepsInv | CANMSP432E4.c:128-147 | Every step of a write, `txMsg`, interrupt or flush keeps: free slots + ring + writers under way = capacity; `txPending` if and only if the mailbox holds the ring's head; a waiting frame is being sent or about to be kicked; the histories are in order. |
| CanPort.NoLossNoStall | CANMSP432E4.c:274-302 | A put never meets a full ring; after each `txMsg`, tx-complete or flush a non-empty ring is being sent. |
| CanPort.FirstInFirstOut | CANMSP432E4.c:495-521 | Over every interleaving the frames handed to the hardware are the written ones in order, except those a flush dropped before their turn. |
| CanDriver.AllocateKeepsOwnership | CANMSP432E4.c:541-566 | Allocation fails if and only if all 32 objects are taken, else takes the lowest free one; ownership is kept. |
| CanDriver.CloseKeepsOwnership | CANMSP432E4.c:152-205 | Closing gives back what the handle owned and keeps ownership. |
| CanDriver.ReleaseAll | CANMSP432E4.c:571-583 | The two releases of a close empty both masks. |
| CanSystem.OverwriteAgrees | CANMSP432E4.c:454 | The mask that open stores over the allocator's is the one the allocator left. |
| CanSystem.OpenKeepsOwnership | CANMSP432E4.c:345-466 | Open succeeds with one unowned object a direction or fails with nothing taken; ownership is kept either way. |
| CanReceive.OpensIff | CANMSP432E4.c:345-466 | An open succeeds if and only if the handle is closed, the platform grants what it asks for, and a message object is free for each direction. |
| CanRuns.OneOwner | CANMSP432E4.c:245-303 | An interrupt index is found for a handle and a direction if and only if that handle owns it there. |
| CanOwnership.OwnershipAlways | CANMSP432E4.c:104-123 | In every reachable state, over any opens, failed allocations, closes, errors and interrupts, the mask is the disjoint union of the open handles' masks, and each index has at most one owner and direction. |
| CanRuns.CloseKeepsInv | CANMSP432E4.c:152-205 | A close keeps the invariant of the whole system and leaves stale just what the handle had told the hardware. |
| CanRuns.CloseIsCleanIff | CANMSP432E4.c:152-205 | A close leaves no message object behind that can interrupt if and only if no frame of the handle is with the hardware and it does not receive. |
| CanRuns.EventKeepsInvIff | CANMSP432E4.c:225-304 | Any open, close, write step, flush or interrupt keeps the invariant of the whole system if and only if it is not the interrupt of an object left behind that a writing handle takes for its own. |
| CanRuns.UnownedIsIgnored | CANMSP432E4.c:245-303 | The interrupt of an object that no handle owns changes nothing and is not acknowledged. |
| CanRuns.StaleInterruptLeaksSlot | CANMSP432E4.c:274-302 | In every state, the interrupt of an object left behind gives the writing handle that owns it one slot too many, or takes its ring's head for sent; if no other frame waits, none has been handed over. |
| CanStale.ReaderLeaves | CANMSP432E4.c:454-460 | From an unused controller, with another handle open, an open for reading and a close reach a state with a receiving object left behind. |
| CanStale.WriterLeaves | CANMSP432E4.c:495-521 | From an unused controller, with another handle open, an open, wait, put, kick and close reach a state with a sending object left behind. |
| CanStale.StaleRuns | CANMSP432E4.c:152-205 | With another handle open throughout, a run from an unused controller ends with a free slot more than the next owner's ring has, and one with its only written frame gone and never handed to the hardware. |
| CanRuns.ReachableIsInv | CANMSP432E4.c:128-147 | In every reachable state, whatever is closed, as long as no interrupt strays: the mask is the disjoint union of what is owned, every writing handle's transmit path is in order in its own message object, every reading handle's object receives, and every other object that can interrupt was left by a close. |
| CanRuns.CleanRunIsInv | CANMSP432E4.c:152-205 | Over any run in which each close is clean, nothing is ever left behind, no interrupt strays and the invariant holds. |
| CanReceive.ReceivedInOrder | CANMSP432E4.c:245-273 | Over every run, what has been read from an open handle and what is in its buffer are the frames that came since its open and found room, in order of arrival; the others are its overruns; its semaphore counts the buffer. |
| CanReceive.FirstKept | CANMSP432E4.c:259-269 | As long as nobody reads, the buffer holds the first frames that came, up to its size, and the overruns are the rest. |
| CanReceive.ErrorsFlush | CANMSP432E4.c:128-147 | After an error warning or bus-off every bound writer's ring is empty, all its slots are given back, nothing is pending and its message object is cleared; nothing else changes. |
| CanController.Controller.AllocateMessageObject | CANMSP432E4.c:541-566 | The loop over 32 bits does the allocation of the specification. |
| CanController.Controller.TransmitMessage | CANMSP432E4.c:495-521 | The kick keeps the invariant of the whole system, and after it the head of a non-empty ring is with the hardware. |
| CanController.Controller.TxBuffersFlush | CANMSP432E4.c:128-147 | The loop over the list, from its tail, flushes every handle. |
| CanController.Controller.HwiIntFxn | CANMSP432E4.c:225-304 | The interrupt handler, for every cause, does the event of the run theorems; for an object that a bound handle receives on it puts the frame behind the buffer, or counts an overrun if that is full, and changes nothing else. |
| CanController.Controller.OpenHandle | CANMSP432E4.c:345-466 | The open with its failure paths does the specification's. |
| SpiPolling.PolledInBytes | FileSystem/SPIMSP432E4DMA.c:687-741 | With buffers apart: element k sent is the byte or little-endian pair at its place, or the low bytes of the default value; at its place in the receive buffer stand the low bytes of the answer to the first k + 1 words; every other byte but the scratch word is as before. |
| SpiPolling.SpiPollingTransfer | FileSystem/SPIMSP432E4DMA.c:687-741 | The loop with its moving pointers exchanges element 0 to count - 1 in order, whatever the buffers, NULL ones included; with buffers apart, in bytes as above. |
| SpiTransfer.DmaIsPolling | FileSystem/SPIMSP432E4DMA.c:515-605 | A DMA transfer that ends, however its two channels and interrupts interleave, has sent the words and left the memory of the polling loop, if no element is overwritten before it can have been sent. |
| SpiTransfer.DmaEnds | FileSystem/SPIMSP432E4DMA.c:180-217 | Every run ends after exactly 2 * count moves and ceil(count / 1024) interrupts, is stuck only when done, and has then moved each element once. |
| SpiTransfer.NextProgresses | FileSystem/SPIMSP432E4DMA.c:180-217 | Every move and interrupt makes progress by one. |
| SpiOverlap.HazardFreeIff | FileSystem/SPIMSP432E4DMA.c:529-572 | The condition of the refinement holds if and only if the receive buffer does not start inside the part of the transmit buffer that can be read ahead. |
| SpiOverlap.Diverges | FileSystem/SPIMSP432E4DMA.c:529-572 | If it does, a slave and a timing exist for which the DMA sends another word than polling. |
| SpiOverlap.RefinesIff | FileSystem/SPIMSP432E4DMA.c:515-605 | DMA is polling for every slave, memory and timing if and only if the addresses satisfy that condition. |
| SpiLifecycle.StepKeepsInv | FileSystem/SPIMSP432E4DMA.c:355-497 | Every step keeps the invariant on transaction, chunk, set-up, semaphore and history, a cancel if it does not come while its transaction is being set up. |
| SpiLifecycle.OneCallbackEach | FileSystem/SPIMSP432E4DMA.c:355-497 | Over every interleaving without such a cancel, each accepted DMA transaction is in flight, on its way to the callback, or has had exactly one callback that answers it; no NULL transaction is used in callback mode; a blocking call returns true if and only if its own transaction was given back while it waited, and no post is left over. |
| SpiLifecycle.TakenIff | FileSystem/SPIMSP432E4DMA.c:355-403 | A call takes its transaction if and only if none is there, it has elements and a buffer, and 16-bit elements lie on even addresses; in blocking mode one below the threshold is polled and every other goes to the DMA. |
| SpiLifecycle.NeverStuck | FileSystem/SPIMSP432E4DMA.c:355-497 | Some step always serves a transaction in flight. |
| SpiLifecycle.CanceledCount | FileSystem/SPIMSP432E4DMA.c:474-485 | The count after a cancel or timeout is what the earlier chunks moved and what the hardware does not report as remaining of the current one, and less than the original count. |
| SpiRaces.CanceledCountIff | FileSystem/SPIMSP432E4DMA.c:474-485 | That count is the number of elements received if and only if the chunk was not through when the cancel read what remains; otherwise it is one too few. |
| SpiRaces.FaultIffLate | FileSystem/SPIMSP432E4DMA.c:402-441 | A step uses a NULL transaction if and only if it is the next of a call whose transaction was given back between its timeout and its read of the status. |
| SpiRaces.BecomesLate | FileSystem/SPIMSP432E4DMA.c:180-217 | Only the last interrupt, in that window, makes a call late. |
| SpiRaces.LateFaults | FileSystem/SPIMSP432E4DMA.c:402-441 | A late call has one step left, which faults. |
| SpiRaces.FaultWindow | FileSystem/SPIMSP432E4DMA.c:402-441 | Over every run in blocking mode: some last interrupt has come in that window if and only if a NULL transaction has been used or is used by the only step left. |
| SpiRaces.QuietWindow | FileSystem/SPIMSP432E4DMA.c:440-448 | Over every run in blocking mode: a call returns false for a completed transaction if and only if the last interrupt came between the read of the status and the cancel's critical section. |
| SpiRaces.TimeoutRace | FileSystem/SPIMSP432E4DMA.c:402-419 | A run with the first race exists for every transaction of one chunk. |
| SpiRaces.QuietRace | FileSystem/SPIMSP432E4DMA.c:440-448 | A run with the second race exists for every transaction of one chunk. |
| SpiRaces.EarlyCancel | FileSystem/SPIMSP432E4DMA.c:390-403 | In callback mode, after a cancel while the transaction is being set up, the count has underflowed if the chunk had no size yet, and a run to the use of a NULL transaction exists. |
| SpiRaces.EarlyCancelIff | FileSystem/SPIMSP432E4DMA.c:390-403 | In callback mode, some run after a cancel's critical section uses a NULL transaction if and only if the transaction was still being set up. |
| SpiRaces.EarlyCancelRun | FileSystem/SPIMSP432E4DMA.c:390-403 | Such a run exists from the opened driver for every acceptable transaction. |
| SpiDriver.Object.HwiFxn | FileSystem/SPIMSP432E4DMA.c:180-217 | The interrupt keeps the invariant; it goes on with the elements right behind the chunk that is done, or all elements are through and the callback gets the whole, completed transaction, its only one. |
| SpiDriver.Object.CancelRest | FileSystem/SPIMSP432E4DMA.c:466-497 | The rest of the cancel keeps the invariant and gives the callback the transaction, its only one, with the count that the hardware does not report as remaining, less than asked for. |
| SpiDriver.Object.Transfer | FileSystem/SPIMSP432E4DMA.c:355-423 | The whole blocking call, with interrupts between any two of its steps, keeps the invariant; it uses a NULL transaction only if late, and otherwise its transaction has had its one callback, of which the value returned tells. |
| HttpConnection.HttpRecvLine | HTTPServer/httpserver.c:232-269 | The line reader returns, consumes and writes the first line through its CRLF with a terminator, the empty line, or an error for a line that does not fit or the stream's end; every write is in bounds. |
| HttpConnection.Handle404 | HTTPServer/httpserver.c:210-230 | In pieces of any size it consumes the smaller of the content length and what is left, and returns the difference. |
| HttpConnection.RecvFields | HTTPServer/httpserver.c:350-366 | The loop over the field lines does the specification's fold and leaves the stream behind the empty line. |
| HttpConnection.TransactOn | HTTPServer/httpserver.c:271-404 | One transaction has the status, the error reply, the stop request and the rest of the stream that the theorems are about. |
| HttpRequest.FieldsEndAtBlank | HTTPServer/httpserver.c:350-366 | From the CRLF of a line on, the field loop ends exactly at the first CRLF CRLF. |
| HttpRequest.HeadEndsAtBlank | HTTPServer/httpserver.c:286-366 | A header that could be read was consumed exactly through the first CRLF CRLF of the stream. |
| HttpRequest.KeptSessionIsAligned | HTTPServer/httpserver.c:376-400 | When no handler takes a request the session is kept if and only if the announced length is not negative and the body has come, and then header and body were consumed exactly. |
| HttpFraming.RequestLineRead | HTTPServer/httpserver.c:286-340 | A request line gives the method it starts with, and behind any blanks the path and arguments, or the error if and only if the target does not fit. |
| HttpFraming.BadRequestIff | HTTPServer/httpserver.c:300-325 | A request line is bad if and only if it starts with none of the five methods or has no target between blanks. |
| HttpFraming.HeadReads | HTTPServer/httpserver.c:271-366 | The header of a message as a client writes it is read back whole, whatever follows it. |
| HttpFraming.AlignedIff | HTTPServer/httpserver.c:271-404 | A declined message leaves a kept session on its boundary if and only if the last recognised announcement is the length of its body. |
| HttpFraming.PipelineStaysAligned | HTTPServer/httpserver.c:271-404 | Any number of such messages in a row are served one by one, each call starting on the next one's first byte. |
| HttpFraming.FieldRecognised | HTTPServer/httpserver.c:354-359 | The announcement of any length is read back as that number. |
| HttpFraming.AnnouncedValue | HTTPServer/httpserver.c:354-359 | The value of an announcement is the number behind blanks, sign and zeros, with its sign, up to the first other character; without digits it is 0. |
| HttpFraming.OtherFieldIgnored | HTTPServer/httpserver.c:197-202 | Every field line that does not start with the expected name leaves the length as it is. |
| HttpFraming.LowerCaseIgnored | HTTPServer/httpserver.c:197-202 | An announcement in lower case changes nothing. |
| HttpFraming.SpellingDecides | HTTPServer/httpserver.c:197-202 | With the field in the expected spelling the connection stays aligned; in lower case the next call starts on the body. |
| HttpAnswers.DeclinedOutcome | HTTPServer/httpserver.c:350-400 | A declined message whose last announcement is `length`: so many bytes behind the header are dropped and 404 is sent; the connection is on the message's end if and only if `length` is that of the body; with fewer bytes the status is what is missing. |
| HttpAnswers.SilentOutcome | HTTPServer/httpserver.c:350-400 | Without an announcement nothing is dropped: the next call starts on the body. |
| HttpAnswers.FramedPipeline | HTTPServer/httpserver.c:271-404 | Declined messages whose last announcement is right, or that have neither announcement nor body, are served one by one. |
| HttpAnswers.FirstDecides | HTTPServer/httpserver.c:376-385 | The first handler that does not decline decides, and none if all decline. |
| HttpAnswers.HandlerDecides | HTTPServer/httpserver.c:376-403 | Its answer decides whether the session is kept and the server stops; what it has read of the body is gone, and no error is sent. |
| HttpAnswers.LongLineRefused | HTTPServer/httpserver.c:259-263 | A first line that does not fit closes the session with 413. |
| HttpAnswers.LongFieldRefused | HTTPServer/httpserver.c:350-370 | So does a field line behind any good ones; a stream that ends within the header closes it without an error. |
| HttpSessions.KeptInPlace | HTTPServer/httpserver.c:489-517 | A session that is not stopped stays, at the place given by the ones kept before it. |
| HttpSessions.PruneIsLive | HTTPServer/httpserver.c:489-517 | No stopped session is left, and pruning changes nothing if and only if there was none. |
| HttpSessions.PruneOneSpec | HTTPServer/httpserver.c:489-517 | Taking out the first stopped session changes neither what pruning leaves nor which sockets are closed after its own. |
| HttpSessions.StopsOne | HTTPServer/httpserver.c:489-522 | A session told to stop is gone after the next sweep, and the others are not touched. |
| HttpSessions.NeverExceeds | HTTPServer/httpserver.c:536-567 | Over any accepts, failed creations, stops and prunings the list never exceeds `maxSessions`. |
| HttpSessions.AddToLive | HTTPServer/httpserver.c:536-567 | A full list of live sessions loses its oldest and gains the newest at its end; a list with room only gains. |
| HttpSessions.OldestLostIff | HTTPServer/httpserver.c:541-550 | A live oldest session is lost if and only if the list is full with the stopped sessions counted, whether or not the new one is created. |
| HttpSessions.Server.NumSessions | HTTPServer/httpserver.c:524-534 | The loop over the links counts the list. |
| HttpSessions.Server.PruneSession | HTTPServer/httpserver.c:489-517 | The restarting loop over the links ends and leaves the pruned list, with the sockets of the stopped sessions closed in order. |
| HttpSessions.Server.AddSession | HTTPServer/httpserver.c:536-567 | The linked list becomes the one of the specification, with the new session last. |
| DioDebounce.GlitchesRejected | DiscreteIO/DIO.c:778-851 | For every trace of samples: a report, and a fall of the input, only after debounce delay + 1 samples down in a row; a rise only after at least two released samples since the last report; low in both repeat states. |
| DioDebounce.HeldKeyRepeats | DiscreteIO/DIO.c:784-846 | The number of reports for a key held n ticks in closed form, for all n and all delays, 0 included. |
| DioDebounce.GlitchEndsRepeat | DiscreteIO/DIO.c:796-846 | One released sample during auto-repeat ends the reports for as long as the key is then held. |
| DioDebounce.TwoReleasesRest | DiscreteIO/DIO.c:784-846 | Two released samples bring every state to rest. |
| DioDebounce.DownTimer | DiscreteIO/DIO.c:756-792 | The timer of a held key counts the ticks since the first, modulo 2^32. |
| DioEdges.LevelFollows | DiscreteIO/DIO.c:201-216 | After any history a direct channel's value is its last input, an inverted one's the opposite, a fixed one's its constant; bypassed it keeps its value. |
| DioEdges.CounterIsEdges | DiscreteIO/DIO.c:147-179 | A counting channel's value is the smaller of 2^32 - 1 and its start plus the edges of its kind; each edge triggers once. |
| DioEdges.BothIsSum | DiscreteIO/DIO.c:147-179 | Edges of both kinds are the sum of the two, which differ exactly by the net change. |
| DioEdges.ToggleIsParity | DiscreteIO/DIO.c:223-234 | A toggling channel holds the parity of its edges. |
| DioEdges.NotificationsReplay | DiscreteIO/DIO.c:237-242 | In every mode the notifications replay to the value, and none repeats the last. |
| DioBlink.LowPerPeriod | DiscreteIO/DIO.c:641-658 | In any period of max + 1 ticks a counter is at most a exactly min(a, max) + 1 times. |
| DioBlink.DutyCycle | DiscreteIO/DIO.c:615-673 | A blinking output with its counter in range is asserted exactly min(DOA, last value) + 1 times a period, or if inverted at exactly the other ticks, in both blink modes. |
| DioBlink.DutyCycleFromAnywhere | DiscreteIO/DIO.c:615-673 | The same from any counter value, from the second tick on. |
| DioManager.ScanStep | DiscreteIO/DIO.c:784-846 | The state machine with its counters decremented in place does the specification's tick. |
| DioManager.IsTrig | DiscreteIO/DIO.c:147-179 | The edge detection by mode is that of the channel's kind of edge. |
| DioManager.ValueStep | DiscreteIO/DIO.c:201-236 | A channel's new value and trigger by its mode: fixed, level, counted or toggled by its kind of edge; unchanged if bypassed. |
| DioManager.OutputStep | DiscreteIO/DIO.c:615-673 | The code's switch over the modes does the tick of the theorems, and gives an output by its mode as `DioBlink.TickIsByMode` has it. |
| DioManager.CalledExactly | DiscreteIO/DIO.c:778-846 | A read calls the debounce functions of just the debounced channels that report and have one, each once, in order. |
| DioManager.TriggeredExactly | DiscreteIO/DIO.c:147-179 | An update calls the trigger functions of just the counting channels with their kind of edge that have one, each once, in order. |
| DioManager.NotifiedExactly | DiscreteIO/DIO.c:237-242 | An update notifies just the channels with a new value, each once, in order. |
| DioManager.PinsAreSamples | DiscreteIO/DIO.c:751-851 | A debounced channel's samples are its low pins; any other channel's input is its last pin. |
| DioManager.FallsOnlyHeld | DiscreteIO/DIO.c:778-851 | From rest, a debounced input falls only when the last debounce delay + 1 pins were low. |
| DioBlink.TickIsByMode | DiscreteIO/DIO.c:615-673 | An output after a tick by its mode, blink enable, override and inversion. |
| DioBlink.TicksBlink | DiscreteIO/DIO.c:620-665 | Over any number of ticks a blinking output was asserted at just the ticks at which its counter was not above DOA, or if inverted at just the others. |
| DioManager.Manager.DIRd | DiscreteIO/DIO.c:778-851 | The loop reads every channel by its own tick and calls the debounce functions due, in order. |
| DioManager.Manager.DIUpdate | DiscreteIO/DIO.c:196-245 | The loop updates every channel by its own tick and makes the trigger calls and notifications due, in order; afterwards a direct channel's value is its input and an inverted one's the opposite. |
| DioManager.Manager.DOUpdate | DiscreteIO/DIO.c:615-673 | The loop updates every output with the same synchronous counter, which then advances. |
| SocketTable.StepKeepsInv | slnetsock.c:185-281 | Every step of creations and closes keeps: open sockets and those about to be open have different real ones, and the real ones in the tables are just theirs. |
| SocketTable.RealSocketsAreUnique | slnetifndk.c:413-441 | Over every run two slots name the same real socket only while one of them is being closed, and each socket in a table is that of an open slot or of a creation under way. |
| SocketTable.CloseWindow | slnetsock.c:435-468 | In the middle of a close, another creation can be given the same real descriptor. |
| SocketSelect.SetsRefined | slnetsock.c:995-1103 | The descriptor sets are finite sets of descriptors below 32; a larger descriptor or a NULL set is refused. |
| SocketSelect.CollectGathers | slnetsock.c:851-928 | The first loop is left early if and only if memory runs out or a second interface turns up; otherwise its list holds exactly the watched sockets. |
| SocketSelect.BoundIsLeast | slnetsock.c:851-928 | The bound handed down is one more than the greatest watched real descriptor. |
| SocketSelect.RealSets | slnetsock.c:860-875 | A real descriptor is in a set handed down if and only if an open virtual one that stands for it was asked for there. |
| SocketSelect.Translated | slnetsock.c:945-966 | The second loop sets exactly the virtual descriptors of the ready real ones. |
| SocketSelect.DispatchedIff | slnetsock.c:851-977 | The call reaches an interface if and only if some socket is watched, all are of one interface that can wait, and memory suffices; otherwise the sets are unchanged. |
| SocketSelect.RefusalCode | slnetsock.c:899-977 | A call that reaches no interface returns the memory error if and only if one more watched socket than there is memory for came before any of a second interface. |
| SocketSelect.SelectReports | slnetsock.c:930-966 | Whatever the interface answers, a virtual descriptor is in a result set if and only if it was asked for in any set, is below the bound and open, and its real descriptor is in the answer's corresponding set. |
| SocketSelect.WrongIff | slnetsock.c:930-966 | A watched socket is reported in a set it was not asked for in if and only if another open one was, with the same real descriptor, and that is ready; never if watched sockets have real ones of their own. |
| SocketSelect.SharedIsReported | slnetsock.c:930-966 | With a socket being closed and another open on its real descriptor, a wait for one to read and the other to write reports both as ready to read. |
| SocketSelect.SelectTranslates | slnetsock.c:830-987 | A virtual descriptor is in a result set if and only if it was asked for there, is below the bound and open, and the interface left its real descriptor in the corresponding set. |
| SocketNdk.SocketsAsked | slnetifndk.c:955-974 | The stack is asked about the sockets of the descriptors in the set and, besides, of all from 32 on. |
| SocketNdk.UnreadyCleared | slnetifndk.c:982-1006 | A descriptor stays in a set if and only if it was there and its socket is ready. |
| SocketNdk.NdkAnswers | slnetifndk.c:976-1009 | On an error of the stack the interface leaves the sets as they came; otherwise each keeps just the descriptors whose sockets are ready. |
| SocketNdk.SelectThroughNdk | slnetsock.c:830-987 | In every state with no close under way, a virtual socket is reported if and only if it was asked for, is below the bound and open, its real descriptor is below 32 and its real socket is ready. |
| SocketLayer.CreateAllOrNothing | slnetsock.c:361-427 | A creation takes the first free descriptor of the first candidate with room, or, if and only if none has room, changes nothing; without any interface it returns the success code 0. |
| SocketLayer.CloseUndoesCreate | slnetsock.c:435-468 | A close undoes a creation. |
| SocketLayer.NetSock.AllocVirtualSocket | slnetsock.c:185-234 | The loop takes the first free slot; the errors tell a full table from missing memory. |
| SocketLayer.NetSock.FreeVirtualSocket | slnetsock.c:242-281 | The slot is freed; a descriptor out of range and a free slot are refused. |
| SocketLayer.NetSock.Create | slnetsock.c:320-427 | The loop over the interfaces does the specification's creation. |
| SocketLayer.NetSock.Close | slnetsock.c:435-468 | The close frees the real descriptor and then the slot, and keeps the table's invariant. |
| SocketLayer.NetSock.AddSktToTable | slnetifndk.c:413-424 | The loop takes the first free descriptor. |
| SocketLayer.NetSock.GatherAll | slnetsock.c:846-928 | The first loop of a wait, with its early exits, gathers what the specification does. |
| SocketLayer.NetSock.WaitFor | slnetsock.c:830-987 | The whole wait does the specification's. |
| SocketLayer.PassDown | slnetifndk.c:955-974 | The interface's first loop collects the specification's sockets. |
| SocketLayer.ClearBack | slnetifndk.c:982-1006 | The interface's second loop clears the specification's descriptors. |

## Left out

- Serial framing: what a call holds in its string when it ends is lost to the next call, which starts empty; UART read errors, the semaphore and receiver-enable pin around the loops, the connection wait, and real time other than counted ticks. When the answers of the UART end, the call counts as still waiting.
- Serial framing: `char` is taken as unsigned; the message queues and the other message formats of the ALTO files.
- AltoCodec.ConvertAsciiToBinary: a character that is no hex digit reads an uninitialised variable, which is a parameter here.
- CAN: `CAN_writeHelper` and `StructRingBuf` are not part of this model; a write is a wait for a free slot, a put and a kick, and a read a wait on the semaphore and a get. Pins, power, bit rate and filters are left out, and so is the `opened` flag left set by a failing power lookup (CANMSP432E4.c:365-367).
- CAN: an open and a close are each one step. What the last close does to the controller (CANMSP432E4.c:166-190) is left out; the message objects are taken to survive it.
- SPI: initialisation, pins, power, the peripheral's registers and the status that a polled transaction is given; its queues appear only as the bound on how far the transmit channel is ahead. The frame width in bits is left to the slave, which is an arbitrary function.
- CanRuns.ReachableIsInv: a write call under way when its handle is closed takes no further step; in the code its kick would go to no message object.
- SpiLifecycle.OneCallbackEach: one task uses a handle in blocking mode and cancels only after a timeout, as the comment at FileSystem/SPIMSP432E4DMA.c:435-439 says; two tasks sharing a blocking handle are not modelled. The interrupt handler is not itself interrupted by calls into the driver.
- SpiDriver.Object.CancelRest: the release of the flag and the callback follow at once; in callback mode, where other calls can come between, they are steps of their own in `SpiLifecycle`.
- SpiRaces.CanceledCountIff: the DMA's control word is up to date with what has been moved.
- SpiTransfer.DmaIsPolling: the scratch word lies apart from both buffers.
- HttpConnection.HttpRecvLine: a line buffer has at least 3 bytes, a two-byte `recv` returns both or ends the stream, and an error of `recv` counts as the end of the stream.
- HTTP: replies other than the error codes, `scanField`, TLS, the send thread, the `select` loop around the sessions, and the socket closed twice when a handler cannot be created (HTTPServer/httpserver.c:455-460, 917-918). `atoi` is on unbounded integers, where C leaves overflow undefined.
- HttpRequest.KeptSessionIsAligned: handlers that decline a request have read nothing.
- Discrete I/O: pins, the thread that drives the ticks, and configuration changes during a trace or a period. A tick's work on one channel is done on a copy that is then stored.
- Sockets: the lock, the initialised flag, options, TLS and the other calls that dispatch to an interface, with the slot `SlNetSock_accept` keeps on an invalid descriptor (slnetsock.c:535-539). A set has one 32-bit slot. The query for interfaces is the list of its answers.
- SocketTable.RealSocketsAreUnique: a socket is closed by one thread, and the tables hold only sockets made through this layer.
- The wait of the network stack is an arbitrary function of the sockets it is asked about.
- Board tables, start-up code, certificates, the CRC engine, USB, display and network plumbing: data, registers and thin wrappers.
