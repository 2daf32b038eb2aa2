# Secure Debug Manager: a verified model of the SDC-600 driver and the ADAC conversation

This project models three files of the Secure Debug Manager and proves what they do, for every environment:

* `sdm/ext_com_port_driver.cpp`, the driver of the SDC-600 external COM port: the byte-stuffing encoder, the streaming
  decoder, the polled and blocking register transport, and the link handshake;
* `sdm/secure_debug_manager_impl.cpp`, the authentication conversation that runs over the driver;
* `sdm/secure_debug_manager.cpp`, the singleton behind the public API.

Run `dafny verify dfyconfig.toml` to check it (Dafny 4.11).

## How the model is built

The library reaches the world only through callbacks. `Host.dfy` models the debugger that supplies them: an arbitrary
finite tape of replies (return code, `accessesCompleted`, words stored), one for each callback call, and a log of every
call with its answer. A theorem for every tape is a theorem for every target, probe and timing. When the tape is used up
every access fails, so the receive loops, which have no limit of their own, end exactly when the supply of bytes does.

The three classes (`Driver.ExternalComPortDriver`, `Manager.SecureDebugManagerImpl`, `Manager.SecureDebugManager`) follow
the source method by method: fields updated in place, arrays filled in place, the same loops, counters, branches and order
of checks. Each method is proved equal to a function of the host's world, and the theorems are lemmas about those
functions, so they speak about whole calls, whole messages and whole runs. `Driver.Put`, `StuffInto`, `CopyPrefix`,
`EstablishLink`, `RequestLink` and `CompleteReset`, and `Manager.Present`, `SendCertificates`, `RequestChallenge`, `RespondToChallenge` and
`BuildRequest`, are pieces of one source function each, split off to keep proofs short. Every lemma switches off automatic
induction; where induction is used it is written out.

| file | content |
|---|---|
| `Types.dfy`, `Host.dfy` | integers, return codes, flags; callbacks, replies, the log |
| `Framing.dfy` | the encoder and its 16-bit index |
| `Decoder.dfy`, `RoundTrip.dfy` | the decoder, what a stream means, frames among NULLs and leftovers |
| `Transport.dfy`, `Messages.dfy` | polling, raw accesses, waiting; whole messages on a world |
| `Handshake.dfy`, `HandshakeOrder.dfy`, `HandshakePeer.dfy` | the handshake as a script, its order, the peers it succeeds with |
| `Driver.dfy` | the driver class |
| `Link.dfy`, `TwoParty.dfy`, `DriverRuns.dfy` | the bounded FIFO, sender and receiver together, whole runs of the driver |
| `Conversation.dfy`, `ConversationTrace.dfy`, `Progress.dfy` | the ADAC conversation and what it shows |
| `Layouts.dfy`, `ConversationPeer.dfy` | a concrete header layout; the peers the conversation succeeds with |
| `Session.dfy`, `SessionPeer.dfy`, `Manager.dfy` | the lifecycle, a whole session, and the manager's classes |

## Where the code and its documentation differ

The model follows the code.

* The encoder's index is 16 bits wide. `PreparedIsFrame` shows that it emits the frame exactly when the frame is shorter
  than 65536 bytes; a longer one is truncated (`sdm/ext_com_port_driver.cpp:221`). `LongMessageLost` is an input that is
  reported as sent although nothing was.
* `EComPort_Tx` reports the encoded length, not the number of bytes consumed (`sdm/ext_com_port_driver.h:134-138`);
  `TransmitLog` states it as 2 + payload + escaped bytes.
* A start flag does not clear a pending escape (`sdm/ext_com_port_driver.cpp:303-307`). `Resynchronises` gives the exact
  condition under which a frame after leftovers arrives intact, `LeftoverEscapeCorrupts` the inputs with which it does not.
* A link-release flag inside a frame is stored as data and raises no error, unlike `sdm/ext_com_port_driver.h:155`; see
  `LinkReleaseIsStored`.
* `*actualLength` is written only with a data byte and no start flag resets it, so after an empty frame it is not the
  number of bytes filled in (`sdm/ext_com_port_driver.cpp:303-325`). `LengthExactly` says when it is, and
  `EmptyFrameKeepsLength` is where it is not. For the same reason Init can take an empty identification: `InitExactly`,
  `EmptyIdentification` and `StrayByteInitialises`.
* A ready status on poll 5001 still counts as a timeout; `SendByteBudget` and `PollSuccess` put the limit at 5000.
* `EComPort_Finalize` leaves the driver initialised. "Initialised" means that some Init has succeeded (`InitedMeans`).
* The 32-bit words of a request's content carry only whole words: a certificate or token whose length is not a multiple
  of four loses its tail (`PacketOnWire`).

## Model

| member | source | states |
|---|---|---|
| Hosts.StatusFields | sdm/ext_com_port_driver.cpp:715-735 | a status word assembled from TX space, overflow, link errors, RX level and arbitrary other bits is read back as exactly those fields |
| Hosts.WordsRoundTrip | sdm/ext_com_port_driver.cpp:665-676 | the low bytes of the words written for some data are that data |
| Hosts.FaithfulViews | sdm/ext_com_port_driver.cpp:678-679 | every view of the log (events, bytes offered, words written, progress values, numbers of status reads, data reads and data writes) is that of the calls made, in order |
| Framing.FrameLength | sdm/ext_com_port_driver.cpp:222-239 | a frame has two bytes more than the payload plus one for each payload byte in 0xA0..0xBF |
| Framing.StuffShape | sdm/ext_com_port_driver.cpp:224-237 | in a stuffed body the only byte in 0xA0..0xBF is ESC, always followed by one in 0x20..0x3F |
| Framing.FrameShape | sdm/ext_com_port_driver.cpp:221-239 | a frame is its start flag, a well-stuffed body and END, with no other start flag or END in it |
| Framing.UnstuffStuff | sdm/ext_com_port_driver.cpp:224-237 | undoing the stuffing gives the payload back |
| Framing.FrameInjective | sdm/ext_com_port_driver.cpp:213-259 | different payloads have different frames |
| Framing.PreparedIsFrame | sdm/ext_com_port_driver.cpp:221-254 | with its wrapping 16-bit index the encoder emits the frame if and only if the frame is shorter than 65536 bytes |
| Framing.PreparedMeaning | sdm/ext_com_port_driver.cpp:221-254 | for every payload: as many bytes are handed out as the frame length leaves on division by 65536, each the last byte of the frame written at that index |
| Framing.LongMessageVanishes | sdm/ext_com_port_driver.cpp:221-254 | a failing input: the frame of 65534 zero bytes wraps the index round to 0 and nothing is handed out |
| Driver.ExternalComPortDriver.EComPortPrepareData | sdm/ext_com_port_driver.cpp:213-259 | for every payload and capacity: the prepared bytes at the front of the output and the rest untouched, or size 0 and an internal error when they do not fit |
| Decoder.DecodeMeaning | sdm/ext_com_port_driver.cpp:261-332 | for a stream with a first END: success iff a start flag came before it, no run of data overflowed and at most 10000 NULLs led, and an internal error right after that END if only the start flag is missing; then it has stopped right after that END with the payload at the front of the buffer and, as length, the place of the last data byte in its run, or the incoming length when there was no data |
| Decoder.LengthMeaning | sdm/ext_com_port_driver.cpp:303-325 | by position: the reported length counts the bytes of the run up to the last data byte of all, even when a start flag came after it; the incoming value when no data byte came |
| Decoder.LengthExactly | sdm/ext_com_port_driver.cpp:303-325 | a successful reception reports the length of its payload if and only if the payload is not empty, or the incoming length was 0 and no data byte came at all; it reports 0 only in that last case |
| Decoder.EmptyFrameKeepsLength | sdm/ext_com_port_driver.cpp:303-325 | the failing inputs: an empty frame is received with the length the caller passed in |
| Decoder.PayloadMeaning | sdm/ext_com_port_driver.cpp:298-326 | the payload is the data bytes after the last start flag in order, each with bit 7 set iff an ESC occurred since the previous data byte |
| Decoder.EscPendingMeaning | sdm/ext_com_port_driver.cpp:298-315 | an escape is pending iff some ESC has no data byte after it |
| Decoder.LastStart | sdm/ext_com_port_driver.cpp:303-307 | the position of the last start flag, or -1 when there is none |
| Decoder.DataPositions | sdm/ext_com_port_driver.cpp:308-326 | exactly the positions of data bytes after a given one, in increasing order |
| Decoder.DecodeTracks | sdm/ext_com_port_driver.cpp:273-327 | on a stream without END the decoder is still going iff no run overflows and at most 10000 NULLs lead, and then its buffer, index, flags and counters are those of the stream read so far |
| Decoder.DecodeAppend | sdm/ext_com_port_driver.cpp:273-289 | decoding a longer stream is decoding its beginning and, if that has not ended it, going on with the rest |
| Decoder.Overflow | sdm/ext_com_port_driver.cpp:316-326 | the byte that overflows a run stops the decoder with an internal error, the first bytes of that run filling the buffer and the length equal to the buffer's |
| Decoder.NeverPastBuffer | sdm/ext_com_port_driver.cpp:316-325 | on every stream nothing beyond the given length is written |
| Decoder.NullLimit | sdm/ext_com_port_driver.cpp:289-297 | the NULL that is one more than 10000 before any start flag stops the decoder with a timeout, keeping what was stored and reported before |
| Decoder.AllNulls | sdm/ext_com_port_driver.cpp:289-297 | an all-NULL stream times out after exactly 10001 reads, leaving buffer and length as they were |
| RoundTrip.DecodeNoisyFrame | sdm/ext_com_port_driver.cpp:213-332 | a frame with NULLs anywhere in it decodes to its message and no byte after its END is taken |
| RoundTrip.DecodeAfterLeftovers | sdm/ext_com_port_driver.cpp:273-327 | a frame after any leftovers without END is received if and only if no run of the leftovers overflows the buffer, the message fits and at most 10000 NULLs come before the first start flag; what is received is the message, with bit 7 of its first byte set when the leftovers end in a pending escape |
| RoundTrip.Resynchronises | sdm/ext_com_port_driver.cpp:273-327 | a non-empty message after such leftovers is delivered unchanged if and only if leftovers and message fit, NULLs stay within their limit, and no escape was pending or bit 7 of its first byte is set anyway |
| RoundTrip.LeftoverEscapeCorrupts | sdm/ext_com_port_driver.cpp:303-315 | the failing inputs: one stray ESC before the frame of a message that starts below 0x80 sets bit 7 of its first byte |
| RoundTrip.LinkReleaseIsStored | sdm/ext_com_port_driver.cpp:308-326 | a link-release flag in a frame is received as a data byte |
| RoundTrip.MessagesRoundTrip | sdm/ext_com_port_driver.cpp:213-332 | any list of messages that fit the buffer, framed, concatenated and interleaved with NULLs (at most 10000 before each START), comes back in order from that many receive calls with the rest of the stream untouched, if and only if no empty message is received over a non-zero length; so always when no message is empty |
| Driver.ExternalComPortDriver.EComPortRxInt | sdm/ext_com_port_driver.cpp:261-332 | the loop over raw reads gives the code, buffer, length and world of the decoder run on the bytes the environment delivers |
| Messages.ReceiveDecodes | sdm/ext_com_port_driver.cpp:261-332 | receiving returns what decoding the incoming bytes returns, takes exactly the bytes the decoder used, and polls nothing; when the bytes run out it fails with the code of the reply that brought none |
| Driver.ExternalComPortDriver.EComStatus | sdm/ext_com_port_driver.cpp:688-737 | one status access, its failure or the decoded fields |
| Driver.ExternalComPortDriver.EComTxRaw | sdm/ext_com_port_driver.cpp:637-686 | one write of the words for the bytes to DR or DBR; a short completion is reported before the return code; nothing for no bytes |
| Driver.ExternalComPortDriver.EComRxRaw | sdm/ext_com_port_driver.cpp:576-635 | one read of so many words; on success their low bytes at the front of the output, otherwise the output untouched |
| Driver.ExternalComPortDriver.EComSendByte | sdm/ext_com_port_driver.cpp:55-104 | the polling loop and the write, equal to the specification `SendByteBudget` is about |
| Driver.ExternalComPortDriver.EComSendBlock | sdm/ext_com_port_driver.cpp:106-131 | one blocking write, or the bytes one by one until one fails |
| Driver.ExternalComPortDriver.EComReadByte | sdm/ext_com_port_driver.cpp:133-182 | the polling loop and the read |
| Driver.ExternalComPortDriver.EComWaitFlag | sdm/ext_com_port_driver.cpp:191-210 | reading bytes until the flag, for any supply of bytes |
| Transport.PollSuccess | sdm/ext_com_port_driver.cpp:67-93 | polling succeeds iff one of the first 5000 answers is the first that is ready, all before it being clean |
| Transport.PollQuiet | sdm/ext_com_port_driver.cpp:67-93 | polling only reads the status register, at most 5001 times, at most 5000 when it succeeds |
| Transport.OpenMeans | sdm/ext_com_port_driver.cpp:67-93 | in register bits: receiving waits for bits 23:16, sending for bits 7:0, each whatever the other holds, and bits 13, 14 and 30 stop both |
| Transport.PollOutcome | sdm/ext_com_port_driver.cpp:67-93 | on every tape: polling stops at the first answer that is not clean and idle, or at answer 5001, with the failed access's code, an I/O error for an error bit, a timeout, or success |
| Transport.SendByteOutcome | sdm/ext_com_port_driver.cpp:55-104 | on every tape: the return code of sending a byte; a write reported short is a failed request whatever its own code |
| Transport.ReadByteOutcome | sdm/ext_com_port_driver.cpp:133-182 | on every tape: the return code or byte of reading; a failed read gives its own code before a short one counts |
| Transport.ReadByteAtOnce | sdm/ext_com_port_driver.cpp:133-182 | for a status word with any TX space, a positive RX level and no error bit, the low byte of the next data word is returned |
| Transport.ReadBytePollsOn | sdm/ext_com_port_driver.cpp:165-167 | for a status word with RX level 0 and no error bit polling goes on, whatever the TX space |
| Transport.SendByteBudget | sdm/ext_com_port_driver.cpp:55-104 | the byte is written, once, to DR, in the low byte above three NULLs, right after the poll that showed space, iff that poll is among the first 5000 with no error up to it; the send succeeds iff the write does |
| Transport.SendAllLog | sdm/ext_com_port_driver.cpp:117-128 | polled sending offers a prefix of the data; on success all of it, one write and at most 5000 polls a byte |
| Transport.WaitFlagMeaning | sdm/ext_com_port_driver.cpp:133-210 | a wait takes at most 5001 polls for each byte delivered, and 5001 more when it fails, reads DR only right after a status word with a non-zero RX level and no error bit, and on success has consumed exactly the shortest run ending in the flag |
| Transport.WaitFlagFails | sdm/ext_com_port_driver.cpp:191-210 | a wait that fails has skipped bytes other than the flag and gives the code of the read that failed |
| Transport.RxRawOfWords | sdm/ext_com_port_driver.cpp:576-686 | a raw read answered with the words of a frame gives the frame back |
| Messages.TransmitLog | sdm/ext_com_port_driver.cpp:497-531 | transmission offers a prefix of the frame, all of it on success, reports the encoded length, and does nothing before Init |
| Messages.ModesAgree | sdm/ext_com_port_driver.cpp:106-131 | blocking and polled transmission that both succeed have written the same words, which read back as the frame |
| Messages.PolledTransmitBudget | sdm/ext_com_port_driver.cpp:55-128 | a successful polled transmission makes one write per byte of the frame and at most 5000 status reads for each |
| Messages.LongMessageLost | sdm/ext_com_port_driver.cpp:497-531 | a failing input: 65534 zero bytes sent in polled mode are reported as success with length 0 and nothing is written; in blocking mode they are an internal error |
| Driver.ExternalComPortDriver.EComPortTx | sdm/ext_com_port_driver.cpp:497-531 | refuses before Init, otherwise encodes and sends, with the encoded length written back |
| Driver.ExternalComPortDriver.EComPortRx | sdm/ext_com_port_driver.cpp:533-544 | refuses before Init, otherwise receives with the START flag |
| Driver.ExternalComPortDriver.EComPortPower | sdm/ext_com_port_driver.cpp:444-476 | runs the release, and for power-on also the request, of link phase 1 |
| Driver.ExternalComPortDriver.EComPortRReboot | sdm/ext_com_port_driver.cpp:478-495 | sends the reboot request |
| Driver.ExternalComPortDriver.EComPortInit | sdm/ext_com_port_driver.cpp:366-442 | the handshake and identification for every reset type, and when the driver becomes initialised |
| Driver.ExternalComPortDriver.EComPortFinalize | sdm/ext_com_port_driver.cpp:546-574 | drops link phase 2 and then phase 1, leaving the driver initialised |
| Handshake.RunScriptConforms | sdm/ext_com_port_driver.cpp:366-495 | in every environment what a handshake call shows is a prefix of its script, the whole of it on success |
| HandshakeOrder.InitOffers | sdm/ext_com_port_driver.cpp:366-442 | Init transmits a prefix of LPH1RL, LPH1RA, LPH2RA, (LPH2RR), IDR, all of it on success, and only success initialises the driver |
| HandshakeOrder.InitConforms | sdm/ext_com_port_driver.cpp:366-476 | the whole dialogue of Init is a run of its script followed by listening for the identification |
| HandshakeOrder.InitOrder | sdm/ext_com_port_driver.cpp:366-476 | LPH1RA, LPH2RA and IDR each go out right after the acknowledgement before them was consumed; reset-start precedes all sending, and reset-end comes right after LPH2RA |
| HandshakeOrder.EarlierPhasesDone | sdm/ext_com_port_driver.cpp:366-476 | whenever something is sent or reset, everything the script puts before it has completed |
| HandshakeOrder.PowerOrder | sdm/ext_com_port_driver.cpp:444-476 | in every environment power-on sends LPH1RL first and LPH1RA right after the echo, power-off sends LPH1RL alone; success comes right after the last echo was heard |
| HandshakeOrder.FinalizeOrder | sdm/ext_com_port_driver.cpp:546-574 | in every environment Finalize sends LPH2RL first and LPH1RL right after its echo; success comes right after LPH1RL was heard |
| HandshakeOrder.InitFails | sdm/ext_com_port_driver.cpp:366-442 | Init fails with an internal error before anything happens when a reset callback it needs is missing, with the code of the first phase that fails, with the code of the identification read, or with a transfer error |
| HandshakePeer.InitCompletes | sdm/ext_com_port_driver.cpp:366-442 | against every peer that serves each phase within the budgets, stale bytes allowed, and answers with a framed identification, Init succeeds for all reset types and returns exactly that identification |
| HandshakePeer.ScriptServedExactly | sdm/ext_com_port_driver.cpp:366-495 | a handshake script succeeds if and only if the environment serves its phases one after another |
| HandshakePeer.TransmitServedExactly | sdm/ext_com_port_driver.cpp:55-131 | a message goes out if and only if, polled, each byte of its frame in turn finds space within the polling budget and is written, or, blocking, its one write is reported complete |
| HandshakePeer.InitExactly | sdm/ext_com_port_driver.cpp:366-442 | in every environment: Init succeeds if and only if the needed callbacks exist, the handshake is served, and up to the first END there come an IDA flag, no overflowing run, at most 10000 NULLs before it and some data byte, be it before the flag; the buffer then holds the data after the last IDA |
| HandshakePeer.EmptyIdentification | sdm/ext_com_port_driver.cpp:431-432 | an empty identification frame, after leftovers that fit, makes Init fail with a transfer error and stay uninitialised if and only if no data byte came before it; otherwise Init succeeds and initialises the driver |
| HandshakePeer.StrayByteInitialises | sdm/ext_com_port_driver.cpp:431-438 | the failing inputs: one data byte before an empty identification frame, and the driver is initialised with nothing identified |
| Link.NoOverflow | sdm/ext_com_port_driver.cpp:55-131 | laid against any schedule of peer reads, a disciplined run keeps the FIFO within its depth after every access |
| Link.SendBlockWrites | sdm/ext_com_port_driver.cpp:106-131 | polled, every write is one byte to DR right after a status showing space and no error; blocking, there is one write, to DBR, with one word per byte, each the byte above three NULLs |
| Link.SendBlockDisciplined | sdm/ext_com_port_driver.cpp:106-131 | each DR write of a transmission is one word and comes right after a clean status that showed space |
| Link.SendBlockEnters | sdm/ext_com_port_driver.cpp:106-131 | the bytes that enter the FIFO are a prefix of the data in order, all of it on success |
| TwoParty.Conservation | sdm/ext_com_port_driver.cpp:497-544 | bytes the peer has read, NULLs aside, and bytes still in the FIFO are together the bytes that entered |
| TwoParty.PrefixExact | sdm/ext_com_port_driver.cpp:497-531 | polled or blocking, under every schedule and at every moment, between the words of a blocking write too: occupancy within the depth, and bytes read plus bytes queued exactly what has entered, a prefix of the frame, the whole frame after success |
| TwoParty.ReceiverNeverWrong | sdm/ext_com_port_driver.cpp:261-332 | a receiver fed any part of a frame among NULLs is either waiting or has succeeded with exactly the message, the latter iff the whole frame has come |
| TwoParty.MessageArrives | sdm/ext_com_port_driver.cpp:497-544 | in every interleaving in which the environment serves the frame and the peer reads until the FIFO is empty, the send succeeds and the peer's receive call returns exactly the message |
| TwoParty.MessageCanArrive | sdm/ext_com_port_driver.cpp:497-544 | for every message whose frame the encoder can express, in both modes and for every FIFO depth (polled: that the status register can show), there is such an interleaving, with the peer reading in between |
| DriverRuns.InitedMeans | sdm/ext_com_port_driver.cpp:438-438 | after any public calls the driver is initialised iff it was at the start or some Init has succeeded |
| DriverRuns.Perform | sdm/ext_com_port_driver.cpp:366-574 | each call of a run, made on the driver object, does what the run model says |
| DriverRuns.PerformAll | sdm/ext_com_port_driver.cpp:366-574 | so does any sequence of calls |
| DriverRuns.WireTransparency | sdm/ext_com_port_driver.cpp:184-259 | over any run of public calls a link flag on the wire comes from a handshake call, a START only after a successful Init, and payload bytes in 0xA0..0xBF never go out raw |
| DriverRuns.RunNeverOverflows | sdm/ext_com_port_driver.cpp:55-131 | no sequence of public calls overflows the TX FIFO under any schedule of peer reads, whether the port queues the link flags or takes them for itself |
| Conversation.BuiltRequests | sdm/secure_debug_manager_impl.cpp:457-465 | the request built in the shared buffer has the response command, the word count and the content's whole words |
| Layouts.PlainIsValid | sdm/secure_debug_manager_impl.cpp:457-461 | a header of eight bytes with a 16-bit command and a 32-bit count obeys the laws the model asks of a layout |
| ConversationTrace.PacketOnWire | sdm/secure_debug_manager_impl.cpp:316-333 | a request that fits the buffer never wraps the encoder, goes out as its frame of at most 8194 bytes, and decodes to header and content; the content is whole iff its length is a multiple of four |
| ConversationTrace.AskShows | sdm/secure_debug_manager_impl.cpp:420-489 | an exchange shows its packet's frame and then the bytes read, and succeeds iff they are one frame that fits after the response header and gives a challenge of the right size, or the status success or need-more-data |
| Conversation.CertificatesMeaning | sdm/secure_debug_manager_impl.cpp:223-237 | the certificates of a chain are the contents of exactly the entries of the certificate kind, in chain order |
| Conversation.CertificatesConcat | sdm/secure_debug_manager_impl.cpp:223-237 | the certificates of two chains joined are those of the first and then those of the second |
| ConversationTrace.AuthenticationTells | sdm/secure_debug_manager_impl.cpp:153-262 | for every chain, token and peer: AuthStart, one AuthResponse per certificate in chain order, AuthResponse with the token, each accepted before the next is sent; success iff the whole list was sent and accepted |
| ConversationTrace.AuthenticationSends | sdm/secure_debug_manager_impl.cpp:153-262 | a successful attempt has sent AuthStart, the certificate entries of the chain by place and in order, and the token signed over the challenge, nothing else, each answered acceptably |
| ConversationPeer.ChallengeReceived | sdm/secure_debug_manager_impl.cpp:440-451 | the challenge that is signed is the bytes of the peer's response after the response header |
| ConversationPeer.ResponseLimit | sdm/secure_debug_manager_impl.cpp:335-351 | a response is received iff it leaves room for a response header in the 4096-byte buffer |
| ConversationPeer.AuthenticationCompletes | sdm/secure_debug_manager_impl.cpp:153-262 | against every peer that answers each request with a framed good response, NULLs anywhere, the attempt succeeds for every chain and token, takes exactly those answers from the wire, and the last packet carries the token signed over the challenge in the first response |
| ConversationPeer.AuthenticationPossible | sdm/secure_debug_manager_impl.cpp:153-262 | for every chain, token and header layout with good responses there is an environment in which the attempt succeeds |
| ConversationPeer.PlainAttemptSucceeds | sdm/secure_debug_manager_impl.cpp:153-262 | with a concrete header layout every chain and token that fit are presented successfully in some environment, so the conditions on layout, oracle and connection can be met together |
| ConversationPeer.PlainAnswersExactly | sdm/secure_debug_manager_impl.cpp:440-485 | with the concrete layout a start response is good iff its count is the challenge's in words, up to the top two bits, and any other iff its status is success or need-more-data |
| ProgressReport.AuthenticationReports | sdm/secure_debug_manager_impl.cpp:163-260 | progress values are the first so many of 0, 20, 30, 40, 50, 60, 90, 100, the number told by how far the attempt got, and all of them iff it succeeds |
| Manager.SecureDebugManagerImpl.constructor | sdm/secure_debug_manager_impl.cpp:61-63 | starts closed, without a driver, with a zeroed buffer |
| Manager.SecureDebugManagerImpl.SDMOpen | sdm/secure_debug_manager_impl.cpp:69-151 | the order of checks, the handshake with system reset, the protocol check, and when it becomes open |
| Manager.SecureDebugManagerImpl.SDMAuthenticate | sdm/secure_debug_manager_impl.cpp:153-262 | the imperative conversation, with its loop over the chain, has the outcome, wire and buffer of the specified one |
| Manager.SecureDebugManagerImpl.SendCertificates | sdm/secure_debug_manager_impl.cpp:218-237 | the loop sends exactly the certificate entries in order, stopping at the first failure |
| Manager.SecureDebugManagerImpl.RequestPacketSend | sdm/secure_debug_manager_impl.cpp:316-333 | sends a packet in blocking mode |
| Manager.SecureDebugManagerImpl.ResponsePacketReceive | sdm/secure_debug_manager_impl.cpp:335-351 | receives into the shared buffer, leaving room for the response header |
| Manager.SecureDebugManagerImpl.SendAuthStartCmdRequest | sdm/secure_debug_manager_impl.cpp:420-427 | sends the start request |
| Manager.SecureDebugManagerImpl.ReceiveAuthStartCmdResponse | sdm/secure_debug_manager_impl.cpp:429-455 | accepts iff received and of the challenge's size, and returns the challenge |
| Manager.SecureDebugManagerImpl.SendAuthResponseCmdRequest | sdm/secure_debug_manager_impl.cpp:457-465 | builds the request in place over the shared buffer and sends it |
| Manager.SecureDebugManagerImpl.ReceiveAuthResponseCmdResponse | sdm/secure_debug_manager_impl.cpp:467-489 | accepts iff received with status success or need-more-data |
| Manager.SecureDebugManagerImpl.SDMClose | sdm/secure_debug_manager_impl.cpp:269-308 | closes an open manager, refuses otherwise |
| Session.OpenChecksProtocol | sdm/secure_debug_manager_impl.cpp:29-151 | opening against a cooperating peer with a 6-byte identification succeeds iff it is 50 53 41 44 42 47 and is otherwise refused as unsupported; the buffer is untouched and nothing beyond the identification is read |
| Session.PromptTarget | sdm/secure_debug_manager_impl.cpp:69-151 | for every 6-byte identification there are replies with which opening succeeds or is refused by the protocol check, as the identification says, whatever comes after them |
| Session.OpenExactly | sdm/secure_debug_manager.cpp:18-47 | in every environment the public open succeeds iff nothing is open, crypto starts, both callbacks are there and the handshake leaves the expected six bytes; then the implementation at the given address is live, open, with an initialised driver and a zeroed buffer |
| Session.OpenRefusals | sdm/secure_debug_manager.cpp:18-47 | opening without parameters is an invalid argument; when already open, without crypto or without the callbacks it is an internal error; nothing changes |
| Session.ApiKeepsSound | sdm/secure_debug_manager.cpp:18-102 | every public call keeps: a live manager is open with an initialised driver; a failed open changes nothing, and only a successful open or close changes liveness |
| Session.SessionInvariant | sdm/secure_debug_manager.cpp:18-102 | after any sequence of public calls the singleton exists iff some open has succeeded and no close since, and then it is open with an initialised driver |
| Session.HandleCalls | sdm/secure_debug_manager.cpp:49-102 | after any sequence of public calls, a call is refused without effect when nothing is open or its handle is not the one the last successful open gave out; otherwise it reaches an open implementation, so the not-open refusals never happen |
| SessionPeer.SessionCompletes | sdm/secure_debug_manager.cpp:18-102 | with a target that identifies itself and serves the attempt, open, authenticate with the handle given out and close all succeed, the session being open before the close and gone after it, with everything the target said read |
| SessionPeer.SessionPossible | sdm/secure_debug_manager.cpp:18-102 | for every chain and token some target does so, if good answers to both kinds of request exist |
| Manager.SecureDebugManager.SDMOpen | sdm/secure_debug_manager.cpp:18-47 | the singleton's checks, and a handle only on success |
| Manager.SecureDebugManager.SDMAuthenticate | sdm/secure_debug_manager.cpp:49-64 | handle checks, then the implementation |
| Manager.SecureDebugManager.SDMResumeBoot | sdm/secure_debug_manager.cpp:66-81 | handle checks only |
| Manager.SecureDebugManager.SDMClose | sdm/secure_debug_manager.cpp:84-102 | handle checks, then close and discard |

## Left out

- Cryptography, key import and trust-chain loading: oracles that succeed or fail; the token is an arbitrary function of the challenge.
- Layouts of `request_packet_t`, `response_packet_t`, `psa_tlv_t` and `split_tlv_static`: not part of this repository; the header writers and readers are parameters with the laws a header must obey for the two commands that are sent (`Layouts.PlainIsValid` shows a layout that obeys them), and the parsed chain is a list of (type, bytes).
- Certificates and tokens that do not fit the 4096-byte message buffer after the header: the source copies without a check, so the model requires that they fit.
- Raw reads of more bytes than the caller's buffer holds (`EComRxRaw` with `numBytes > outBytesLength`): no caller makes one.
- Payloads of 2^31 bytes or more: the `int` and `uint32_t` loop counters of `EComSendBlock` and `EComPortPrepareData` are taken not to wrap.
- Register addresses: the ADIv5 or ADIv6 base is a constant offset; the model names the registers instead.
- Identifications shorter than six bytes: the protocol check then compares leftover stack bytes, which the model keeps as a parameter; `OpenChecksProtocol` is stated for six.
- Rejection of stale handles after a close and a new open: a handle is an address and may be reused, so the model's handles are addresses chosen by the environment.
- `*handle` and the buffers passed by pointer are taken to be valid memory of the stated size.
- The credential forms, trimming and progress texts, device descriptors, logging and `apbcomflagToStr`: only the progress percentages are kept.
- Lock-on-close and reset-on-close: compiled out by `sdm/sdm_config.h`.
- `PSA_ADAC_ASSERT` and `PSA_ADAC_ASSERT_ERROR` are not part of this model's sources; they are read as "on mismatch return that code".
- Different debuggers in one process: one host serves every open of the model's manager.
