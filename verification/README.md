# Diag router: a verified model

The router connects diagnostic clients to the processors of a phone. It reads
framed streams from peripherals and clients into rings, hands complete messages
on, queues what is to be written under flow control, routes requests by a table
that peripherals edit through a control stream, and keeps the masks that say
which logs, events and messages are wanted.

The model follows that structure, one module for each part of the program:

* `Division`, `Unpacking`, `Crc`: the frame check sequence as polynomial
  division, its table, its residue and the errors it detects.
* `CircBuf`, `Hdlc`, `Receive`, `PeripheralRuns`, `ClientRuns`: the receive ring as
  a FIFO, the encoder, the resumable decoder, the two loops that drive it, and
  runs of calls.
* `Watch`, `Starvation`, `Delivery`, `EventLoop`: the event loop as a state machine
  with the kernel as part of its state, the flows that can stop for good, what
  clients are sent, and the methods that update the lists in place, each proved
  to be a run of that machine.
* `IntrusiveList`: the circular list on the heap, and deleting while walking.
* `BitOps`, `Router`, `Registrations`: keys, three-tier dispatch, and the routing
  table over whole runs.
* `LittleEndian`, `Layout`, `ControlStream`, `ControlMessages`, `MessageOctets`,
  `Announcements`, `Control`, `Reports`, `Effects`, `Channels`: the control stream,
  from octets to effects and back.
* `Memory`, `LogMasks`, `EventMasks`, `MsgMasks`: the mask tables as maps.
* `DiagIds`, `Retries`: the table of names and identifiers.
* `Timers`, `Encoding`, `Nhdlc`: the encodings of clients, the timers that reset
  them, and the framing without escapes.

The framing is that of RFC 1662: octet stuffing in section 4.2, the order of the
check sequence in section 3.1, its polynomial in appendix C. Addresses and
control fields are not used by the program.

`dafny verify dfyconfig.toml` checks the whole project.

## Where the program differs from what one would expect

Each of these is stated by a member of the table below.

* The decoder drops the check sequence without looking at it
  (`Hdlc.DecodeFrame`), although it would detect the errors that
  `Crc.DamagedFrameRejected` names.
* An escape before an empty frame survives it (`Hdlc.EscapeSurvivesEmptyFrame`),
  where section 4.3 of RFC 1662 has that pair abort a frame.
* A client's decoder starts afresh on every call, so a frame that arrives in two
  pieces is lost (`ClientRuns.CallsDeliverIff`), and one that is cut before its
  last raw octet is handed on with a length of SIZE_MAX
  (`ClientRuns.CutBeforeLastRawOctet`, `ClientRuns.AllSafeIff`); a peripheral's
  decoder goes on where it was (`PeripheralRuns.CallsDeliver`).
* Octets that were read can stay undecoded until more arrive
  (`CircBuf.FailureAfterData`, `Receive.ReadButNotDecoded`).
* A write that completes with EAGAIN blocks its queue for good, and nothing else
  does (`Watch.StopsIffStuck`, `Watch.OnlyEagainSticks`); its packets stay
  counted, so one such client can stop a peripheral for all
  (`Starvation.StarvedIff`, `Starvation.StarvedReached`).
* A set-all of message masks stores only the low octet of the word
  (`MsgMasks.SetAllExact`, `MsgMasks.SetAllContradicts`), and a request past the
  end of its window can leave the buffer smaller than what is read from it
  (`MsgMasks.ReadableAfterSetIff`, `MsgMasks.BufferCut`) or its entry answer for
  SSIDs beyond the window (`MsgMasks.SetAnswers`).
* Identifiers of 256 and more are cut when stored but not when answered
  (`DiagIds.SameAnswerIffNarrow`, `DiagIds.WideIdCollides`), and a request for a
  known name sets the counter back (`DiagIds.KnownNameSetsBack`).
* A failed read of a command channel broadcasts the frame that the buffer still
  holds (`Nhdlc.ReadFailedIff`).
* Timers fire only in a turn of the loop in which no descriptor is ready
  (`Encoding.Monitor.Turn`), and the reset of one client changes all encoded
  ones (`Encoding.Monitor.HdlcReset`).

## Model

| member | source | states |
|---|---|---|
| `Division.StepLinear` | router/hdlc.c:36-80 | one shift of the division register is linear over exclusive or |
| `Division.DivideInjective` | router/hdlc.c:36-80 | different registers stay different whatever bits follow |
| `Division.DividePadded` | router/hdlc.c:36-80 | dividing by up to 16 bits one at a time is adding them to the register at once and shifting |
| `Division.BurstDetected` | router/hdlc.c:36-80 | bit strings that agree outside 16 consecutive positions and leave the same remainder are equal |
| `Division.DivideParity` | router/hdlc.c:36-80 | the parity of the remainder is that of the register and the bits: the polynomial has x + 1 as a factor |
| `Division.OddErrorDetected` | router/hdlc.c:36-80 | bit strings that differ in an odd number of positions leave different remainders |
| `Unpacking.UnpackConcat` | router/hdlc.c:36-80 | the bits of a word come in two runs that may be taken one after the other |
| `Crc.TableEntry` | router/hdlc.c:45-75 | each of the 256 literal entries is eight bit-by-bit steps of division by 0x8408 |
| `Crc.OctetIsDivision` | router/hdlc.c:77-80 | a table step is division by the eight bits of the octet, least significant first, from any register |
| `Crc.CrcIsDivision` | router/hdlc.c:77-98 | the crc of a message of any length is the remainder of bit-by-bit division |
| `Crc.MessageBitsInjective` | router/hdlc.c:77-98 | different messages are different bit strings |
| `Crc.ErrorChangesCrc` | router/hdlc.c:77-98 | a burst of at most 16 bits, or an odd number of flipped bits, always changes the crc |
| `Crc.GoodFrame` | router/hdlc.c:97-109 | a message followed by its two complemented octets, low first, leaves the residue 0xf0b8 |
| `Crc.ResidueIffFcs` | router/hdlc.c:97-109 | no other two octets after the message leave that residue |
| `Crc.DamagedFrameRejected` | router/hdlc.c:97-109 | a residue check would catch every burst of 16 bits and every odd error in payload or check sequence |
| `CircBuf.MaskIsModulo` | router/circ_buf.h:44-46 | masking with 16383 is reduction modulo 16384 on 64-bit words |
| `CircBuf.SpaceIsFree` | router/circ_buf.h:44-46 | CIRC_SPACE with its size_t wrap-around is 16383 less what is held; CIRC_SPACE_TO_END is the part of it before the end of the buffer |
| `CircBuf.WriteAppends` | router/circ_buf.c:49-60 | octets written at head, up to that space, append to what is held, across the wrap, and overwrite nothing unread |
| `CircBuf.TakeDrops` | router/hdlc.c:136-140 | stepping tail removes exactly the oldest octet |
| `CircBuf.FailureAfterData` | router/circ_buf.c:49-63 | circ_read fails after having stored octets if and only if a first read fills the buffer to its end, there is room at its start, and the second read fails |
| `CircBuf.NoReadOnlyIfFull` | router/circ_buf.c:49-63 | a call that does not ask the descriptor found the ring full |
| `CircBuf.ReturnsErrno` | router/circ_buf.c:49-63 | circ_read returns the errno of the first read if there is room and that fails, that of the second if it fails after data, and zero otherwise |
| `CircBuf.LastAnswerDecides` | router/circ_buf.c:49-63 | it fails with the errno of the last answer it used, or because answers ran out, and with no other; every answer before the last is no errno |
| `CircBuf.Fd.Read` | router/circ_buf.c:54-56 | the assumed read(): a prefix of what is to arrive, no more than was asked for, or an errno and nothing changed; after the answers given, every read would block |
| `CircBuf.CircBuf.Take` | router/hdlc.c:139-140 | returns the oldest octet and leaves the others |
| `CircBuf.CircBuf.ReadToEnd` | router/circ_buf.c:54-58 | one read appends what it returned to the FIFO and moves nothing else |
| `CircBuf.CircBuf.ReadTurn` | router/circ_buf.c:49-60 | one turn does the first part of the plan of reads and leaves the rest of it |
| `CircBuf.CircBuf.Read` | router/circ_buf.c:44-63 | appends exactly the octets taken from the descriptor, in order, and returns the errno of the read that failed, or zero if none did |
| `Hdlc.HdlcEncode` | router/hdlc.c:82-125 | the encoder's two loops fill a buffer of (slen + 2) * 2 + 1 octets without overrun with the stuffed payload and check sequence and a flag |
| `Hdlc.PutFcs` | router/hdlc.c:108-119 | the second loop appends the two stuffed octets of the check sequence |
| `Hdlc.StuffTransparent` | router/hdlc.c:97-119 | stuffed octets hold no flag, and every escape octet is followed by 0x5d or 0x5e |
| `Hdlc.FrameShape` | router/hdlc.c:92-122 | a frame has one flag, its last octet, and is |p| + 3 plus the number of stuffed octets long, never more than was allocated |
| `Hdlc.DecodeConcat` | router/hdlc.c:127-165 | chunk independence on arbitrary octets: decoding goes on where it left off, also inside an escape pair and after empty frames |
| `Hdlc.DecodeFrame` | router/hdlc.c:142-164 | the message handed out is all but the last two raw octets, whatever these are: the check sequence is never looked at |
| `Hdlc.DecodeEncode` | router/hdlc.c:82-165 | a frame decodes to its payload and leaves the decoder as it was |
| `Hdlc.FrameCarries` | router/hdlc.c:97-119 | before its flag a frame carries the payload and two octets with which it leaves the residue |
| `Hdlc.EncodeInjective` | router/hdlc.c:82-125 | different payloads have different frames |
| `Hdlc.DecodeEncodeAll` | router/hdlc.c:82-165 | a stream of frames decodes to the messages, in order |
| `Hdlc.DecodeMonotone` | router/hdlc.c:127-165 | octets that arrive later only add to the messages |
| `Hdlc.SafeEncodeAll` | router/hdlc.c:146-149 | the decoder stays within its buffer on a stream of frames if and only if every payload with its check sequence has at most 16384 octets |
| `Hdlc.EncodeAllEmptyFrameFree` | router/hdlc.c:153-154 | a stream of frames has no empty frame |
| `Hdlc.StreamRoundTrip` | router/hdlc.c:82-165 | for any part of a stream of frames consumed so far the messages out are a prefix of those in, and all of them once it is consumed |
| `Hdlc.FreshOrNoticed` | router/dm.c:97-112 | a five-octet probe tells every other decoder from a fresh one |
| `Hdlc.FreshPerStretch` | router/dm.c:97-112 | decoding two stretches with a fresh decoder each equals decoding them with one, for all second stretches, if and only if the first leaves the decoder fresh |
| `Hdlc.FreshExactly` | router/dm.c:97-112 | it does if and only if it ends in a flag that completes a frame or follows no escape |
| `Hdlc.EscapeSurvivesEmptyFrame` | router/hdlc.c:144-154 | an input on which an escape before an empty frame changes the first octet of the next one |
| `Receive.HdlcDecoder.Close` | router/hdlc.c:153-164 | closes a frame as the one-pass decoder does; an empty frame changes nothing |
| `Receive.HdlcDecoder.TakeOctet` | router/hdlc.c:136-149 | takes one octet off the ring and absorbs it unless it is a flag |
| `Receive.HdlcDecoder.Scan` | router/hdlc.c:135-151 | absorbs octets up to the first flag, or all of them |
| `Receive.HdlcDecoder.DecodeOne` | router/hdlc.c:127-165 | takes exactly the octets up to the first flag, or all, and hands out what the one-pass decoder makes of them |
| `Receive.DecodeLoop` | router/peripheral-rpmsg.c:123-131 | the loop until NULL takes the octets up to the first empty frame or all of them; each turn shortens the ring |
| `Receive.LeftBehind` | router/hdlc.c:153-154 | octets stay in the ring after the loop only behind an empty frame |
| `Receive.Peripheral.Drain` | router/peripheral-rpmsg.c:123-131 | takes from the ring the octets up to the first empty frame or all of them, broadcasts their one-pass decoding, and leaves the rest, the indices and the decoder as that leaves them |
| `Receive.FillRing` | router/peripheral-rpmsg.c:118-121 | a read leaves octets, indices, stream and answers as the plan of reads for the state it found says, with its result |
| `Receive.ReadsDecide` | router/peripheral-rpmsg.c:117-121 | of reads one after the other of which only the last may fail the last answer decides |
| `Receive.Peripheral.Turn` | router/peripheral-rpmsg.c:117-132 | one turn of the outer loop: the read as planned, and after it, unless it failed, the decoding of what the ring then holds |
| `Receive.Peripheral.RecvHdlc` | router/peripheral-rpmsg.c:112-135 | for any answers of the kernel and any ring: result, octets consumed, and ring, indices, stream and answers at return are those of the call computed from the state it found; what was broadcast is the one-pass decoding of all octets consumed; the result is the errno of the first read that failed |
| `PeripheralRuns.LeftInRingIff` | router/peripheral-rpmsg.c:112-135 | without empty frames octets are in the ring at return if and only if the last read failed after data, or was the first and failed with octets already in the ring |
| `PeripheralRuns.ReadProgresses` | router/circ_buf.c:44-63 | a circ_read that has k positive answers before it fails takes an octet for each, until all have arrived |
| `PeripheralRuns.AllRead` | router/peripheral-rpmsg.c:112-135 | a call whose answers start with as many positive ones as there are octets to arrive reads them all |
| `PeripheralRuns.AllOutIff` | router/peripheral-rpmsg.c:112-135 | of a stream of frames the messages are all out if and only if nothing of it is left |
| `PeripheralRuns.CallDeliversIff` | router/peripheral-rpmsg.c:112-135 | on a stream of frames a call has broadcast a prefix of the messages, and all of them if and only if every octet was read, the last read did not fail after data, and the first read worked or found the ring empty |
| `PeripheralRuns.EnoughAnswers` | router/peripheral-rpmsg.c:112-135 | a call on an empty ring that is given enough octets broadcasts exactly the messages and ends with a fresh decoder if and only if its last read did not fail after data |
| `PeripheralRuns.OneCall` | router/peripheral-rpmsg.c:112-135 | the call on the ring in memory does that: same messages, fresh decoder, same condition |
| `PeripheralRuns.PeripheralDelivers` | router/peripheral-rpmsg.c:112-135 | at any moment what a peripheral has broadcast of a stream of frames is a prefix of the messages, and all of them if and only if neither ring nor descriptor has more of it |
| `PeripheralRuns.CallsKeepStream` | router/peripheral-rpmsg.c:112-135 | over any number of calls no octet of the stream is lost, duplicated or reordered |
| `PeripheralRuns.CallsDeliver` | router/peripheral-rpmsg.c:112-135 | over any number of calls what was broadcast is a prefix of what was sent, and all of it if and only if nothing is left in ring or descriptor |
| `Receive.ReadButNotDecoded` | router/peripheral-rpmsg.c:118-121 | a case where a call has read every octet and complete frames still wait undecoded in the ring |
| `Receive.Client.RecvHdlc` | router/dm.c:97-112 | a client call decodes from scratch, takes what it looked at off the ring, and records it as a piece |
| `Receive.Client.RecvEncoded` | router/dm.c:204-215 | returns an error, and then the errno of the last answer used, if and only if that is an errno other than EAGAIN, and takes no piece; otherwise it decodes what the ring holds from scratch, and the piece handled is what the kernel delivered up to there |
| `Receive.ClientKeepsStream` | router/dm.c:204-215 | pieces taken, ring and what is still to arrive are together the stream, whatever the kernel answers |
| `Receive.ClientHandles` | router/dm.c:97-112 | whole frames followed by part of one are handled and the part is taken and forgotten |
| `Receive.NothingLeft` | router/dm.c:97-112 | without empty frames a call leaves nothing in the ring |
| `ClientRuns.HandledOrDropped` | router/dm.c:97-112 | over any number of calls every raw octet is handed out or dropped at the end of a call |
| `ClientRuns.SafePieceIff` | router/hdlc.c:153-164 | a piece of a stream of frames can be decoded from scratch if and only if it does not have exactly one raw octet before its first flag, where the program hands out a length of SIZE_MAX |
| `ClientRuns.AllSafeIff` | router/dm.c:97-112 | so all pieces of a stream can if and only if none is of that kind |
| `ClientRuns.CutBeforeLastRawOctet` | router/dm.c:97-112 | a frame cut before its last raw octet: two pieces of a valid stream of which the second is of that kind |
| `ClientRuns.EscapeLost` | router/dm.c:97-112 | a call that ends in an escape before any raw octet makes what is handled differ from what was sent |
| `ClientRuns.CallsDeliverIff` | router/dm.c:97-112 | a stream of frames taken in any pieces by any number of calls is within the domain and handled as it was sent if and only if every piece ends where one decoder would be fresh |
| `ClientRuns.ClientDelivers` | router/dm.c:204-215 | so for a client after any number of calls |
| `Watch.BroadcastAllCore` | router/peripheral-qrtr.c:197-260 | broadcasting n frames keeps the flow balanced and raises its counter by exactly n times the number of enabled clients |
| `Watch.BroadcastRaises` | router/dm.c:284-294 | one broadcast raises it by one for each enabled client |
| `Watch.SubmitCore` | router/watch.c:350-380 | handing a packet to the kernel, or failing to, keeps counts and order |
| `Watch.CompleteCore` | router/watch.c:382-419 | a completion with any result keeps counts and order and raises no counter |
| `Watch.RemoveAioCore` | router/watch.c:240-246 | removing a watch with a write in flight orphans the packet and keeps counts and order |
| `Watch.StepKeeps` | router/watch.c:421-503 | every step of the loop, the kernel and the callers keeps the whole invariant |
| `Watch.RunKeeps` | router/watch.c:421-503 | so does every run of steps |
| `Watch.LoopIsSafe` | router/watch.c:133-155 | in every run: each counter is the number of packets of its flow queued, in flight or orphaned; no counter exceeds the watermark by more than frames times clients; each queue is FIFO with at most one write in flight |
| `Watch.PollArms` | router/watch.c:449-457 | a reader is armed if and only if it has no flow or at most ten packets of its flow are counted |
| `Watch.EventFindsItsPacket` | router/watch.c:382-419 | an event always finds the packet of its write pending and counted: neither the assertion nor the unbalanced branch can fail |
| `Watch.BoundAttained` | router/watch.c:152-155 | a callback at the watermark that broadcasts its full number of frames to enabled clients reaches the bound |
| `Watch.BoundReached` | router/watch.c:421-503 | for every number of clients and of frames a run from the start reaches the bound |
| `Watch.EagainWedges` | router/watch.c:406-413 | EAGAIN leaves a packet pending that the kernel no longer has |
| `Watch.WedgedForever` | router/watch.c:406-413 | from then on no packet of that queue completes in any run that does not remove the watch |
| `Watch.NotStuckMoves` | router/watch.c:350-419 | any other watch with something to write has a run of at most two steps, removing nothing, that completes a packet |
| `Watch.StopsIffStuck` | router/watch.c:382-419 | no run that keeps a watch with something to write completes a packet of its queue if and only if its packet is pending without an outstanding write |
| `Watch.OnlyEagainSticks` | router/watch.c:406-413 | a step makes a watch so if and only if it is the completion of its write with EAGAIN |
| `Starvation.StarvedIff` | router/watch.c:152-155 | a flow with a reader starves, in all runs that keep the watches, if and only if more of its packets than the watermark are orphaned, or pending on or queued behind stuck watches |
| `Starvation.HeldStarves` | router/watch.c:152-155 | above the watermark no reader of the flow is armed in any such run |
| `Starvation.CanArm` | router/watch.c:449-457 | at or below it there is a run, removing no watch, that arms the reader |
| `Starvation.HeldStays` | router/watch.c:382-419 | no such run lowers that number |
| `Starvation.StarvedReached` | router/watch.c:421-503 | a run from the start, with one client and one write that ends with EAGAIN, after which a reader starves |
| `Watch.ClientReceives` | router/watch.c:350-419 | what has left a queue that was given frames decodes to a prefix of the messages, and to all of them once it is empty |
| `Delivery.WireCarries` | router/dm.c:243-265 | what is queued for a client is the payload itself, its HDLC frame, or its frame in the newer framing, by the encoding of the client |
| `Delivery.CarriesIs` | router/dm.c:243-265 | in octets: an HDLC frame has its one flag at the end and decodes to just the payload; the newer frame gives control character, version, 16-bit length and payload, and is taken for the payload if and only if the length fits |
| `Delivery.SendFlowIs` | router/dm.c:243-265 | one packet is appended to the queue of an enabled client, no other queue is touched, and nothing happens for a disabled one |
| `Delivery.BroadcastPerQueue` | router/dm.c:284-294 | after a broadcast every queue is as before, followed in client order by one packet for each enabled client whose queue it is |
| `Delivery.BroadcastReaches` | router/dm.c:284-294 | with a queue to each client, every enabled client gets exactly one packet, in its encoding, and all other queues are unchanged |
| `Delivery.BroadcastAllReaches` | router/peripheral-qrtr.c:197-260 | likewise for all frames of a callback, in order |
| `Delivery.CallbackReaches` | router/peripheral-qrtr.c:197-260 | and on the flow of its reader |
| `Delivery.AlwaysOwnQueues` | router/dm.c:71-95 | in every run from the start clients have a queue to themselves |
| `Delivery.ClientIsSent` | router/dm.c:243-294 | over a run that leaves a client alone, it is sent every payload broadcast, once each and in order, if it is enabled, and nothing if not |
| `Delivery.ClientIsSentAll` | router/dm.c:243-294 | over any run, exactly the payloads broadcast while it was enabled, each in the encoding of the moment, and what was pushed on its queue otherwise, in the order of the run |
| `Delivery.AddedGetsNothing` | router/dm.c:71-95 | a client that was added and not enabled is sent nothing |
| `Delivery.BroadcastsReceived` | router/dm.c:243-294 | end to end: what has left the queue of an enabled HDLC client decodes to a prefix of what was broadcast, and to all of it once nothing is pending or queued |
| `EventLoop.EventLoop.IncFlow` | router/watch.c:133-139 | adds one to the counter of the flow and to no other |
| `EventLoop.EventLoop.DecFlow` | router/watch.c:141-150 | takes one off, or reports the counter unbalanced when it is zero |
| `EventLoop.EventLoop.QueuePushFlow` | router/diag.c:94-109 | appends the packet and counts it |
| `EventLoop.EventLoop.DmSendFlow` | router/dm.c:243-265 | pushes the encoded packet on the queue of an enabled client, and nothing otherwise, as Delivery.SendFlowIs has it |
| `EventLoop.EventLoop.DmBroadcast` | router/dm.c:284-294 | the loop sends to every client in turn: each enabled client gets one packet in its encoding on its queue, and no other queue changes |
| `EventLoop.EventLoop.SubmitAio` | router/watch.c:350-380 | a refused submit leaves the queue as it was; an accepted one moves its first packet to the watch |
| `EventLoop.EventLoop.SubmitAll` | router/watch.c:459-463 | the submitting loop is the run of exactly one submit for each watch, in order, that then has something queued and nothing pending |
| `EventLoop.SubmitAfterIs` | router/watch.c:350-380 | after it each such watch has the first packet of its queue pending and outstanding, or was refused and is as before, as the kernel answered; all other watches and queues are as they were |
| `EventLoop.SubmitsEach` | router/watch.c:350-380 | a watch with nothing pending, something queued and a kernel that took it has the first packet of its queue pending and outstanding; every other is as it was |
| `EventLoop.EventLoop.HandleEvent` | router/watch.c:403-413 | an event is a completion step; the assertion holds and no counter is unbalanced |
| `EventLoop.EventLoop.HandleWatch` | router/watch.c:400-418 | a watch takes the one event for its descriptor, or stays as it was |
| `EventLoop.EventLoop.HandleEventfd` | router/watch.c:382-419 | the two loops are the run of one completion for each watch with a reported write, in list order, then of events without a watch: those watches changed as the result says, the others did not, and reported writes are no longer outstanding |
| `EventLoop.HandledIs` | router/watch.c:400-418 | a watch whose write was reported has nothing pending any more unless the result was EAGAIN, its write is over, and a watch without a report is unchanged |
| `EventLoop.EventLoop.PollReaders` | router/watch.c:449-457 | arms exactly the readers without a flow or with at most ten packets of it counted |
| `EventLoop.EventLoop.RunCallbacks` | router/watch.c:496-502 | the callback loop is the run that serves each ready reader exactly once, in order, with its broadcasts, and removes it if it asks; each enabled client is sent what the ready readers broadcast, in list order, and no other client anything |
| `EventLoop.KeptReadersAre` | router/watch.c:496-502 | a reader is removed if and only if it was ready and asked for it |
| `EventLoop.AllAreSent` | router/watch.c:496-502 | the steps of a turn send each enabled client the broadcasts of the ready readers, in list order |
| `EventLoop.EventLoop.RunCallback` | router/peripheral-qrtr.c:197-260 | a callback broadcasts its frames on the flow of its reader: each enabled client gets one packet for each, in order |
| `EventLoop.EventLoop.RemoveFd` | router/watch.c:226-247 | removes exactly the watches of the descriptor, as a run of removals, and touches no packet |
| `EventLoop.EventLoop.RemoveReaders` | router/watch.c:230-237 | its first loop removes exactly the readers of the descriptor |
| `EventLoop.EventLoop.RemoveWriteq` | router/watch.c:249-262 | removes exactly its write watches |
| `EventLoop.WithoutReaderCounts` | router/watch.c:230-237 | after it no read watch of the descriptor is left, and every other one is |
| `EventLoop.WithoutWatchCounts` | router/watch.c:239-246 | likewise for write watches |
| `EventLoop.HandledStep` | router/watch.c:400-418 | handling one more watch extends what has been handled by that watch |
| `IntrusiveList.ListHead.constructor` | router/list.h:51-54 | a new head is linked to itself |
| `IntrusiveList.ListEmpty` | router/list.h:56-59 | true if and only if the ring has no item |
| `IntrusiveList.ListAdd` | router/list.h:61-69 | the ring is well formed both ways around with the item at its end |
| `IntrusiveList.ListDel` | router/list.h:71-75 | exactly one node leaves the ring, the others stay linked in order, and the node keeps its pointers |
| `IntrusiveList.NextNode` | router/list.h:80-81 | the saved next pointer is right whatever was deleted before |
| `IntrusiveList.VisitItem` | router/diag_cntl.c:740-744 | deleting the current item leaves the ring halfway through the pass well formed |
| `IntrusiveList.DeleteWhile` | router/diag_cntl.c:740-744 | a pass that deletes the current item visits each original item once, in order, and leaves the filtered list |
| `BitOps.HasBitOr` | router/router.c:80-84 | the bits of an or are those of either number |
| `Router.JoinIsOr` | router/router.c:80-84 | keys are made by the shifts and ors of the program, cut to 32 bits |
| `Router.JoinIsSum` | router/router.c:80-84 | for command and subsystem of an octet each that is a sum of fields |
| `Router.FlatKeysAreStructured` | router/router.c:80-84 | for well-formed entries, first <= key <= last if and only if command, subsystem and code range agree; plain and subsystem keys never meet |
| `Router.RequestCovered` | router/router.c:72-84 | likewise for the first four octets of a request |
| `Router.Router.RunFirst` | router/router.c:86-92 | calls the first matching entry only, and returns its status |
| `Router.Router.RunAll` | router/router.c:94-105 | calls every matching entry once, in list order, and counts them |
| `Router.FirstMatchIsFirst` | router/router.c:86-92 | the entry found is the first that covers the key |
| `Router.Tiers` | router/router.c:72-118 | the first common entry that covers the key alone decides; without one, all entries of peripherals that cover it get the request and the status is 0 whatever they return; without those the first fallback decides; otherwise it is -2 |
| `Router.ReportIs` | router/router.c:120-158 | an enabled client is told of -2, -22 and -90 with 0x13, 0x14 and 0x15, and of nothing else |
| `Router.Router.Dispatch` | router/router.c:72-118 | the three tiers, with the status each gives, as Tiers has them |
| `Router.Router.HandleCommand` | router/router.c:137-158 | the request goes where the tiers send it; afterwards an enabled client gets 0x13, 0x14 or 0x15 and the request for the three errors, and nothing otherwise; a request that peripherals take is never replied to |
| `Router.UnroutedIsBadCommand` | router/router.c:107-117 | a request goes nowhere if and only if no entry of the three lists covers it, and is then reported with 0x13 |
| `Registrations.UnroutedOverRun` | router/router.c:137-146 | after any run, a request that no common command, standing registration or fallback covers goes nowhere and is reported with 0x13 |
| `Registrations.TableIsSurvivors` | router/diag_cntl.c:231-270 | after any run the table is what the run did not remove of it, in order, then what the run added and did not remove later |
| `Registrations.LivePositions` | router/diag_cntl.c:231-270 | the positions of the registrations that cover a key and are not removed later, each once, in increasing order |
| `Registrations.CloseTakesOwn` | router/diag_cntl.c:734-745 | closing leaves the entries that are not of the peripheral, in order |
| `Registrations.CloseCounts` | router/diag_cntl.c:734-745 | every entry of the peripheral is gone and every copy of any other is there |
| `Registrations.WithdrawCounts` | router/diag_cntl.c:488-493 | a withdrawal removes the entries of the peripheral with just this range, and no copy of any other |
| `Registrations.CloseLeavesOthers` | router/diag_cntl.c:734-745 | for every key the peripherals that get a request are those of before without the one that closed, in their order |
| `Registrations.RouteOverRun` | router/router.c:72-118 | routing over whole runs: the first common entry alone, else each registration still standing that covers the key, once each in the order made, else the first fallback |
| `Registrations.RestoresIffNew` | router/diag_cntl.c:465-497 | registering ranges and withdrawing them gives back the table if and only if it held none of them |
| `Registrations.ClosedGetsNothing` | router/diag_cntl.c:734-745 | a peripheral that closed is sent nothing, whatever happened before |
| `LittleEndian.LeToLe` | router/diag_cntl.c:71-74 | numbers that fit a field survive writing and reading |
| `LittleEndian.ToLeLe` | router/diag_cntl.c:71-74 | so do octets reading and writing |
| `Layout.UnpackPack` | router/diag_cntl.c:82-225 | fields packed one after the other are read back, whatever follows |
| `Layout.UnpackPackWords` | router/diag_cntl.c:143-152 | so are arrays of 32-bit words |
| `ControlStream.SplitSerializeAll` | router/diag_cntl.c:691-732 | the walk splits any concatenation of packets, with less than a packet after it, into exactly those packets |
| `ControlStream.SerializeAllSplit` | router/diag_cntl.c:691-732 | and accounts for every octet of any buffer |
| `ControlStream.WholeByExact` | router/diag_cntl.c:697-704 | the number of packets whose octets end within the first k octets of their stream, and no more |
| `ControlStream.SplitTruncated` | router/diag_cntl.c:697-704 | a stream cut anywhere yields exactly the packets that were complete by then |
| `ControlMessages.OctetsAreSerialized` | router/diag_cntl.c:326-463 | every message queued has total length 8 plus its hdr.len, computed or constant |
| `ControlMessages.ReadPacketOf` | router/diag_cntl.c:71-225 | every message is read back, field by field, from its structure |
| `ControlMessages.ReadBackAll` | router/diag_cntl.c:326-583 | any sequence of messages, concatenated, is split and read back as that sequence with nothing left over |
| `MessageOctets.LogMaskOctets` | router/diag_cntl.c:352-363 | a log mask message in octets: command 9, length, stream 1, status, identifier, items, size, mask |
| `MessageOctets.EventMaskOctets` | router/diag_cntl.c:449-460 | likewise an event mask: command 10 |
| `MessageOctets.MsgMaskOctets` | router/diag_cntl.c:397-408 | likewise a message mask: command 11, stream 1, mode 0 |
| `MessageOctets.FeatureOctets` | router/diag_cntl.c:499-515 | likewise a feature mask: command 8, with a length of 10 for a structure of 8 octets after its header |
| `MessageOctets.DiagModeOctets` | router/diag_cntl.c:542-556 | likewise the mode: command 3, length 36, version 1, sleep vote and real time alike, six zeros |
| `MessageOctets.DiagModeForOctets` | router/diag_cntl.c:528-541 | its second version, with length 37 and the identifier |
| `MessageOctets.BufferingOctets` | router/diag_cntl.c:574-581 | likewise the buffering mode: command 17, length 6, version 1, stream 0 |
| `MessageOctets.BufferingForOctets` | router/diag_cntl.c:565-573 | its second version, with length 7 and the identifier before the stream |
| `MessageOctets.DiagIdOctets` | router/diag_cntl.c:678-686 | likewise the answer to an identifier request: command 33, version 1 |
| `Announcements.RegisterRead` | router/diag_cntl.c:231-270 | the key ranges read from a registration are those it was laid out with |
| `Announcements.DeregisterRead` | router/diag_cntl.c:465-497 | likewise for a deregistration, with its other offsets |
| `Announcements.AnnouncedAndWithdrawn` | router/diag_cntl.c:465-497 | a registration packet and the matching deregistration packet restore the table if and only if the peripheral held none of the ranges |
| `Announcements.IdRequestRead` | router/diag_cntl.c:651-660 | version, identifier and name are read from a request with or without a feature mask |
| `BitOps.HasBitAnd` | router/diag_cntl.c:319-319 | the features agreed on are those both sides have |
| `Control.MsgReports` | router/diag_cntl.c:413-424 | a report for each of the first n windows, each of them sendable |
| `Control.ReportIsMap` | router/diag_cntl.c:383-410 | a message mask report with VALID status carries the stored word of every SSID in its range |
| `Reports.LogReportOctets` | router/diag_cntl.c:326-364 | what is sent about a log mask in each status: items and mask when valid and known, no items when unknown, and identifier zero alone otherwise |
| `Reports.EventReportOctets` | router/diag_cntl.c:426-463 | what is sent about events in each status: on with the mask, on without, or off |
| `Reports.MsgReportOctets` | router/diag_cntl.c:383-410 | what is sent about messages in each status: the window with all words, with one, 0 to 0 without, or the range as requested |
| `Reports.MsgReportsAre` | router/diag_cntl.c:413-424 | the i-th report is that of the i-th window |
| `Reports.ModeMessageOctets` | router/diag_cntl.c:523-558 | the mode, in the version that goes with the identifier |
| `Reports.BufferingMessageOctets` | router/diag_cntl.c:560-583 | likewise the buffering mode |
| `Reports.GreetingIs` | router/diag_cntl.c:499-521 | a greeting is the feature mask, a report for each window in order, real-time mode and streaming; nothing without a control channel |
| `Effects.LocalFeatureBits` | router/diag_cntl.c:279-289 | the features of the router: bits 0, 1, 6, 15 and 19, and 4 and 13 by what the peripheral has |
| `Effects.FeaturesAgreed` | router/diag_cntl.c:319-321 | a feature mask leaves just the features both sides have, is answered with a greeting, and changes nothing else |
| `Effects.TableOnly` | router/diag_cntl.c:706-726 | commands 1 and 27 change the routing table only, by the ranges at their offsets, and unknown commands change nothing |
| `Effects.IdRequestHandled` | router/diag_cntl.c:651-688 | an identifier request shorter than its structure changes nothing; any other is processed and answered with its name |
| `Control.LogSetIsTold` | router/diag_cntl.c:342-363 | a peripheral reads from the report after a set the capped item count and exactly those octets |
| `Control.EventUpdateIsTold` | router/diag_cntl.c:442-462 | likewise for an event update, followed by the octets it left alone |
| `Control.StreamChangesTable` | router/diag_cntl.c:706-728 | whatever else is in a stream, the table changes by the registrations and withdrawals in it, in order |
| `Control.StreamExtendsRun` | router/diag_cntl.c:691-732 | streams of several peripherals make one run of events, to which RouteOverRun applies |
| `Channels.Channel.SendLogMask` | router/diag_cntl.c:326-364 | queues the report of the stored log mask, or of the status alone; nothing without a control channel |
| `Channels.Channel.SendMsgMask` | router/diag_cntl.c:366-411 | queues the report of the window the range starts in, one word of it, or none, by status |
| `Channels.Channel.SendEventMask` | router/diag_cntl.c:426-463 | queues the report of all known events, or of the status alone |
| `Channels.Channel.SendMasks` | router/diag_cntl.c:413-424 | queues a report for every window, in order; nothing without a control channel |
| `Channels.Channel.SendFeatureMask` | router/diag_cntl.c:499-521 | queues feature mask, all message masks, mode and buffering, in this order |
| `Channels.Channel.SetDiagMode` | router/diag_cntl.c:523-558 | queues the second version for a peripheral with a diag id and the first otherwise |
| `Channels.Channel.SetBufferingMode` | router/diag_cntl.c:560-583 | likewise for the buffering mode |
| `Channels.Channel.FeatureMask` | router/diag_cntl.c:272-324 | stores the features in common and answers with them |
| `Channels.Channel.Register` | router/diag_cntl.c:231-270 | the loop appends one entry for each range, with its flat keys |
| `Channels.Channel.RangeAt` | router/diag_cntl.c:243-250 | the two keys of a range, with command 0xff and a subsystem standing for the dispatch command |
| `Channels.Channel.DeleteMatching` | router/diag_cntl.c:488-493 | a pass that deletes in place leaves, in order, the entries that are not of the peripheral, or not of the range |
| `Channels.Channel.Deregister` | router/diag_cntl.c:465-497 | the nested loops withdraw each range in turn |
| `Channels.Channel.Close` | router/diag_cntl.c:734-745 | removes all entries of the peripheral and no others |
| `Channels.Channel.ProcessDiagId` | router/diag_cntl.c:640-689 | finds name and identifier by version and features, processes them and queues the answer |
| `Channels.Channel.HandlePacket` | router/diag_cntl.c:706-726 | each command changes table, identifiers, features and queue as specified; others change nothing |
| `Channels.Channel.Recv` | router/diag_cntl.c:691-732 | handles exactly the complete packets of the buffer, in order, and terminates |
| `Channels.QueueIsReadBack` | router/diag_cntl.c:326-583 | the octets in the queue, concatenated, are read back as the messages that were sent |
| `LogMasks.LogTable.constructor` | router/masks.c:190-225 | 16 entries with their initial item counts and cleared bits |
| `LogMasks.LogTable.DisableLog` | router/masks.c:279-288 | clears every bit and keeps the item counts |
| `LogMasks.LogTable.SetLogMask` | router/masks.c:300-343 | replaces exactly the entry of one known identifier by the capped mask; the reallocating branch is never taken |
| `LogMasks.LogTable.GetLogMask` | router/masks.c:345-369 | returns the entry of the map, or nothing for an unknown identifier |
| `LogMasks.LogRunIsLastSet` | router/masks.c:279-369 | after any run of sets and disables an entry is what was last set for it, cleared if disabled since |
| `LogMasks.DisabledIs` | router/masks.c:279-288 | disabling clears every octet and keeps counts and sizes |
| `LogMasks.CappedIs` | router/masks.c:319-336 | at most 4095 items are kept, and the octets that were given for those |
| `EventMasks.EventMask.constructor` | router/masks.c:239-244 | 0x0B3F events, all disabled |
| `EventMasks.EventMask.GetEventMask` | router/masks.c:544-561 | returns octets that were written, or nothing for more events than are known |
| `EventMasks.EventMask.UpdateEventMask` | router/masks.c:563-584 | replaces the octets of the update and keeps those after it; growing rewrites all, and the buffer always holds the known events |
| `EventMasks.EventMask.ToggleEvents` | router/masks.c:586-595 | fills the mask and sets the status |
| `EventMasks.MostBits` | router/masks.c:567-579 | the number of events known after a run is the largest that an update named, and at least the initial one |
| `EventMasks.EventRunIsLastWrite` | router/masks.c:544-595 | after any run every visible octet is the one last written there |
| `EventMasks.EventStepIs` | router/masks.c:563-595 | one update writes the octets of its events and leaves the others, one toggle sets or clears all |
| `MsgMasks.SsidWindowsGood` | router/masks.h:70-81 | the 25 windows are in ascending order, apart, and of at most 200 each |
| `MsgMasks.MsgTable.constructor` | router/masks.c:73-146 | every SSID in a window starts with all bits set |
| `MsgMasks.MsgTable.GetMsgMask` | router/masks.c:435-462 | returns the range and words of the window a request starts in, or nothing |
| `MsgMasks.GoodTableAnswers` | router/masks.c:441-445 | while the table is a map, the search of a get request finds for every SSID its window, and as many words as are copied |
| `MsgMasks.MsgTable.SetMsgMask` | router/masks.c:464-525 | any request changes at most the entry it selects, as the branches say; the table stays a map, and get requests for all SSIDs find their windows and can read what they copy, if and only if the request stays within its window or selects none; then just the words of its SSIDs are replaced |
| `MsgMasks.SetAnswers` | router/masks.c:435-521 | a request that selects an entry leaves get requests answered by the windows if and only if it ends within its own |
| `MsgMasks.MsgTable.StoreWords` | router/masks.c:487-521 | the entry after truncation, growth, refusal or storing |
| `MsgMasks.SetSelected` | router/masks.c:473-521 | a request that selects an entry keeps the table a map, and is accepted with the words of its SSIDs replaced, if and only if it ends within the window |
| `MsgMasks.SelectIsNearest` | router/masks.c:473-485 | a set request selects the window that starts last at or before its first SSID, if that is at most 200 further on |
| `MsgMasks.AcceptedIff` | router/masks.c:487-516 | which requests are accepted: those that end within the window, have fewer than 200 words, or more and start at most one after it |
| `MsgMasks.AcceptedIsStored` | router/masks.c:511-518 | the words of an accepted request, cut to 200, are in the buffer, and those before them as they were |
| `MsgMasks.MsgTable.SetAllMsgMask` | router/masks.c:527-537 | every word becomes the low octet repeated; the status goes by the whole word |
| `MsgMasks.SetAllExact` | router/masks.c:527-537 | that is the word asked for if and only if its four octets are equal |
| `MsgMasks.SetAllContradicts` | router/masks.c:527-537 | with a low octet of zero and another set, all are reported enabled and every word is zero |
| `MsgMasks.ReadableAfterSetIff` | router/masks.c:487-518 | after a request the buffer holds the 200 words that a reader copies if and only if it ended within the window, or ended 199 or more past the start of the window and did not have exactly 200 words |
| `MsgMasks.BufferCut` | router/masks.c:497-516 | two requests to window 0 to 120 that leave less: 0 to 199, refused with 121 words left, and 0 to 130, accepted with 131 |
| `DiagIds.DiagIdTable.FindDiagId` | router/diag_cntl.c:611-626 | the identifier of the first entry with the name |
| `DiagIds.DiagIdTable.DiagIdExists` | router/diag_cntl.c:628-638 | whether an entry has the identifier, compared at 32 bits |
| `DiagIds.DiagIdTable.RegisterDiagId` | router/diag_cntl.c:590-609 | appends the entry with name length and identifier cut to an octet, or refuses zeros |
| `DiagIds.DiagIdTable.ProcessDiagId` | router/diag_cntl.c:640-688 | table, counter and answer as specified, also when a try fails after the counter was advanced |
| `DiagIds.RunKeeps` | router/diag_cntl.c:640-688 | names and identifiers stay pairwise distinct over every run of requests of all versions whose new identifiers fit an octet |
| `DiagIds.StepKeepsIff` | router/diag_cntl.c:664-675 | a request keeps them distinct if and only if it is not for a new name with a free identifier whose low octet is taken |
| `DiagIds.RunKeepsIff` | router/diag_cntl.c:640-688 | a run of requests keeps them distinct if and only if none of its requests is of that kind when it is handled |
| `DiagIds.NameKeepsId` | router/diag_cntl.c:640-688 | a registered name keeps its identifier over every run |
| `DiagIds.AnswerIs` | router/diag_cntl.c:661-678 | a known name is answered what it has; a new one its own or the next identifier, unless that is taken or has a low octet of zero |
| `DiagIds.NextNewId` | router/diag_cntl.c:661-678 | after a request that was answered, for a known name or a new one, the next new name is given the identifier after that answer; a refused request uses up the one it was tried with |
| `DiagIds.KnownNameSetsBack` | router/diag_cntl.c:676-676 | an input where a request for a known name makes the next new name be refused |
| `DiagIds.SameAnswerIffNarrow` | router/diag_cntl.c:640-688 | a name is answered the same again, after any requests in between, if and only if the first answer fits an octet |
| `DiagIds.WideIdCollides` | router/diag_cntl.c:670-673 | an input by which two names get the same identifier |
| `DiagIds.RetrySucceeds` | router/diag_cntl.c:664-675 | below 256 a request of version 1 or 2 that is tried again succeeds within one try more than the table has entries |
| `Retries.RetryAnywhere` | router/diag_cntl.c:664-675 | from any counter, also where it wraps at 32 bits, it succeeds within three tries more than the table has entries, and each try that fails was for an identifier that is taken or has a low octet of zero |
| `Timers.LessIsEarlier` | router/watch.c:336-336 | timercmp compares microseconds |
| `Timers.PlusAdds` | router/watch.c:280-294 | timeradd adds them and stays normal |
| `Timers.TimeLeftClamps` | router/watch.c:467-471 | the clamped difference is the microseconds left, or zero |
| `Timers.NextTimer` | router/watch.c:323-343 | the first of the timers with the least tick |
| `Encoding.Client.constructor` | router/dm.c:71-95 | an encoded client starts with HDLC, another is raw |
| `Encoding.Monitor.SetEncodeType` | router/dm.c:308-317 | changes every client that is not raw, and no other |
| `Encoding.Monitor.HdlcReset` | router/dm.c:139-145 | puts every encoded client on HDLC and clears the flag of one |
| `Encoding.Monitor.StartHdlcRecovery` | router/dm.c:147-164 | one pending timer per client, due in 200 ms; the sixth bad packet of all clients together resets its sender at once |
| `Encoding.Monitor.AddTimer` | router/watch.c:296-315 | appends one timer, due after its interval |
| `Encoding.Monitor.Fire` | router/watch.c:484-491 | the callback runs once and the timer is set again or removed; each client keeps one pending reset if and only if its flag is set |
| `Encoding.RearmedIs` | router/watch.c:484-491 | a repeating timer is due again its interval after it fired, any other is gone |
| `Encoding.Monitor.Turn` | router/watch.c:465-491 | the wait is the time left of the timer due first; exactly that timer fires, only when nothing was ready, and what its callback does to encodings and flags is done to them |
| `Nhdlc.UnframeFrameIff` | router/peripheral-rpmsg.c:91-107 | a frame that is in the buffer is taken for its payload, whatever follows, if and only if the length fits 16 bits |
| `Nhdlc.TakenIff` | router/peripheral-rpmsg.c:76-107 | a frame that arrives is taken for its payload by a read into a buffer if and only if its length fits 16 bits and all of it fits the buffer |
| `Nhdlc.LongestPayload` | router/peripheral-rpmsg.c:80-107 | from a command channel, whose buffer has 16384 octets, just payloads of at most 16379 octets are taken |
| `Nhdlc.CutFrameRefused` | router/peripheral-rpmsg.c:97-100 | a frame that was cut is refused |
| `Nhdlc.ReadWorked` | router/peripheral-rpmsg.c:83-107 | after a read that worked the call takes what it received, whatever the buffer held before |
| `Nhdlc.ReadFailedIff` | router/peripheral-rpmsg.c:83-107 | after a read that failed a payload is broadcast if and only if the memory still starts with its frame |

## Left out

- System calls, sockets, UART, USB and unix transports, udev and QRTR set-up, `main` and printing. What `read`, `io_submit`, `io_getevents` and `select` return is arbitrary, within what their callers check.
- Allocation failures and the exits through `err`: allocation succeeds.
- Octets beyond the decoder's buffer and frames of a single unescaped octet: outside the domain (`Hdlc.Safe`), since the program writes or steps outside its buffer there. For a decoder that goes on, as a peripheral's, `Hdlc.SafeEncodeAll` says which streams of frames are inside; for one that starts afresh on every call, as a client's, `ClientRuns.AllSafeIff` says which cuts of such a stream are.
- CircBuf.Fd.Read: the answers are a finite list, after which every read would block. A descriptor at end of file answers 0 for ever, and then `diag_data_recv_hdlc` never returns; that is not modelled.
- Receive.Client.RecvHdlc: does not cover a ring that starts with exactly one raw octet and a flag, because the program then hands out a length of SIZE_MAX; `ClientRuns.SafePieceIff` says when a cut of a stream gives that.
- Receive.Client.RecvEncoded: likewise.
- ClientRuns.HandledOrDropped: is about pieces within that domain.
- ClientRuns.EscapeLost: is one way to lose an octet, with later pieces that leave nothing pending; `ClientRuns.CallsDeliverIff` has the exact condition for all pieces.
- The read queues of the event loop (`watch_add_readq`), the quit watches and the end of `watch_run`: the model has write queues and readers only.
- A turn of `watch_run` as one method. Its loops are methods of `EventLoop.EventLoop` and `Encoding.Monitor`; in `Watch` their steps may come in any order, which includes the order of the program.
- Descriptors that are used again for another watch while a write on them is outstanding, and two write watches on one queue or descriptor: the steps that add watches assume neither. In particular a peripheral that is added again on the same descriptor while its last write is in flight is not modelled.
- Writes that complete with fewer octets than were asked for: the program treats every result but EAGAIN as the end of the packet, and so does the model.
- What a client makes of its queue in the other two encodings: `Delivery.CarriesIs` says what each packet is, and the end-to-end statement is about HDLC.
- Delivery.BroadcastsReceived: is about runs in which the client is not switched and nothing but broadcasts is pushed on its queue; `Delivery.ClientIsSentAll` says what is pushed in any run.
- Delivery.ClientIsSent: likewise.
- Registrations whose count does not fit the packet, feature masks shorter than their structure, and names that are not terminated in their packet or exceed 254 octets: outside the domain of `Control.WellFormed`. `DiagIds` itself models longer names.
- The rewritten range argument of `diag_cntl_send_msg_mask` between peripherals of one broadcast, and the broadcast without a range after a set-all: the model sends for a given range.
- Message mask requests with `ssid_first` above `ssid_last`, and requests and reads after one that left its window: the first such request is modelled in full, what comes after it may read or write outside the buffer.
- Build-time masks, the list of ranges and the list of log ranges: they only copy tables out.
- Parsing and answering of the mask commands (`router/common_cmds.c`) and of the other application commands.
- `dm_recv_nhdlc`, which takes a ring for a frame. `Nhdlc` has the frame and the peripheral's reading of it.
- Reading a control message is defined by the layout of its structure; what a peripheral does with it is not part of this model.
- The `diag_id` of a peripheral is an octet, as it is where it is sent.
- Watch.LoopIsSafe: the bound has a factor for the frames that one callback broadcasts. For a callback that broadcasts one frame it is the watermark plus the number of clients. It gives no constant for a peripheral whose callback reads and decodes until a read fails (`diag_data_recv_hdlc`), since that broadcasts every frame that has arrived.
- Router.Router.HandleCommand: handlers leave the three lists and the set of enabled clients alone, because what the callbacks of the source do to them is not part of this model.
- EventLoop.EventLoop.RunCallbacks: callbacks broadcast and may drop their own reader. Those of the source also add write watches and remove watches of other descriptors (`qrtr_data_recv`, `perif_rpmsg_close`), with a saved next item of the list being walked; in `Watch` these are steps that may come between any two others, but not within this loop.
- EventLoop.EventLoop.RunCallback: models the broadcasts of a callback only, not the watches it adds or removes and not its failure before broadcasting.
- Channels.Channel.SendMsgMask: does not cover a range that starts in no window while masks are valid or all enabled, because the program then sends memory it has not written.
- Channels.Channel.Register: does not cover counts larger than the packet, because the program then reads past it.
- Channels.Channel.Deregister: likewise.
- Channels.Channel.ProcessDiagId: does not cover names that are not terminated in their packet, because the program then reads past it, or that exceed 254 octets, because their length wraps.
- Channels.Channel.HandlePacket: covers the packets that the methods above cover.
- Channels.Channel.Recv: covers streams of such packets.
- DiagIds.RunKeeps: assumes new identifiers below 256 and names of at most 254 octets, because wider ones are cut; `DiagIds.RunKeepsIff` has the exact condition on identifiers.
- DiagIds.StepKeepsIff: assumes names of at most 254 octets, as a control packet in the domain has them.
- DiagIds.RunKeepsIff: likewise.
- Retries.RetryAnywhere: likewise.
- Receive.ClientHandles: is about one call; `ClientRuns.CallsDeliverIff` has the runs.
- DiagIds.RetrySucceeds: assumes that the counter stays below 256, which gives the smaller bound; `Retries.RetryAnywhere` does not.
