# A small TCP stack, its address parsers and its console framer

The repository is a user-space TCP endpoint over a packet driver, with a line-oriented console.
This project models three parts of it and proves what they are for.

**The TCP endpoint** (`SeqArith`, `TcpTypes`, `TcpSpec`, `Ownership`, `Frame`, `TcpEndpoint`,
`HandlerLaws`, `WireLayout`, `TcpRuns`, `EndpointRuns`, `Duplex`, `Courses`, `Delivery`, `Closing`).
`TcpEndpoint` holds the code as the code is: a class `Tcp` with a hash table of mutable `Connection` objects, handlers that assign the fields of a record one after the
other and transmit in between, and the console commands. Every method is proved equal to a function of
`TcpSpec`, and the class invariant (`Ownership.Balanced`) says who owns every allocated record. The
other modules then reason about those functions: `TcpRuns` about all runs of one endpoint (and
`EndpointRuns` carries that back to the class), `Duplex` about two endpoints joined by lossless FIFO
channels, `Courses` about every course their runs can take, `Delivery` about what they deliver,
`Closing` about one `active_close` between them, `Frame` about the bytes on the wire. `HandlerLaws` and
`WireLayout` say field by field and byte by byte what the functions of `TcpSpec` and `Frame` come to, in
plain numbers and for all inputs. All sequence arithmetic is modulo 2^32.

**The address parsers** (`Text`, `Inet4`, `Inet6`, `EtherAddr`, `ParserLaws`). The one-pass pointer loops are
methods over arrays; each is proved to accept exactly the texts of a declarative grammar, and to
invert a printer that is written here as the specification.

**The line framer** (`LineFramer`). The read loop of the console connection, with a buffer that
survives between reads.

## How to read the main results

- *Every run of one endpoint.* `TcpRuns.RunKeeps` and `EveryRun` give the invariant `Inv` after any
  sequence of received segments and console commands: keys are the records' own quads and belong to
  this endpoint, stored headers are the key reversed, only five states occur between steps (so
  `handle_tcp_fin_wait2` is never dispatched), SYN and FIN bits are clear, una is at most 2, and in
  SYN_SENT and SYN_RECV una = 0 and snd.nxt = 1; and every allocated record is in the table, freed,
  removed by FIN_WAIT1 or refused by the full table. `TcpEndpoint.Tcp` adds the heap side: distinct
  keys own distinct records, and a record that was freed is in no table entry and is never freed
  again. `rte_free` is a ghost method whose precondition is that the record is allocated and not
  freed, and every handler demands the same of the record it is given.
- *The class.* `EndpointRuns.Drive` performs any sequence of bursts, connects, closes and sends on a new
  `Tcp` object and ends where the run of those events ends, with `Inv` of its records and the heap in
  order. A method changes `State()` exactly as `TcpSpec.Step` does, and `wire` always holds exactly the
  frames of the packets in `sent`.
- *Two endpoints.* `Delivery.DeliveryDecided` quantifies over all runs of the system: any interleaving
  of deliveries in both directions, sends by either side whenever every earlier byte is acknowledged, and
  arbitrary other traffic at both endpoints. A run is on one of three courses, and two guards decide
  which: whether both tables have room when they have to enter the flow, and whether the opener sends in
  SYN_SENT. `Progress` and `EveryRunFinishes` show that the channels do become empty, `EveryTransfer`
  that any bytes can be transferred, and `BytesArrive` that the channels may as well carry frames.
- *Closing.* `Closing.CloseOutcome` decides every run of the closing exchange by one number;
  `CloseAfterAnyTransfer` and `StuckCloses` show that both outcomes are reached by runs.

## Where the code departs from its comments, its standard or its purpose

- `inet_pton6` announces that "::" in a full address is silently ignored (src/cli/parser.c:411). The
  code rejects it (src/cli/parser.c:494), and so does the grammar here: at most seven double octets
  beside "::".
- The dotted tail of an IPv6 text is first read as a group, so its first number may have at most four
  digits, although `inet_pton4` alone takes any number of leading zeros (`Inet6.ValidTail`,
  `Inet4.ValidOctet`).
- `segment_check` accepts every non-empty segment while the window is open. `SegmentCheckVsRfc793`
  gives exactly the segments that RFC 793 would refuse and the code takes. `Duplex.Delivers` shows
  what follows: a non-empty segment is printed and moves rcv.nxt whatever its sequence number.
- `is_between_wrapped` is arc membership only for arcs of at most 2^31; beyond, it is still sound and
  always misses some point (`BetweenIsArcMembership`).
- Closing works exactly while the closer's send space, its FIN counted, is shorter than 2^31 (una
  never advances after the opening). Beyond that both ends wait for ever (`CloseOutcome`).
- The ends are not symmetric: the opener's una is 2 after the handshake and the listener's is 0, so
  after T bytes the deciding number is T + 1 for the one and T + 3 for the other, modulo 2^32
  (`CloseAfterDelivery`). In particular an opener whose T + 1 is a multiple of 2^32 cannot close.
- Data that the opener sends while still in SYN_SENT is lost for good: its segment completes the
  listener's handshake and is not printed. The listener may send as soon as it has an entry.
- A full table does not stop the opening. The SYN, or the SYN-ACK, goes out all the same and the record
  is not entered; the other end establishes or waits, and everything it sends afterwards is dropped
  (`Courses.StrandedKeeps`). `Delivery.DeliveryDecided` covers the runs with and without these failures:
  when nothing is in flight, the two ends agree if and only if both tables had room, and all is settled
  if and only if they had and nothing was sent in SYN_SENT.
- In FIN_WAIT1 any acknowledgement between una and snd.nxt ends the connection, even one that does not
  cover our FIN, and the segment need not carry a FIN (`HandlerLaws.OldAckCloses`).
- An answer that echoes data, to a SYN with payload for instance, carries a checksum computed over the old
  content of the block (`HandlerLaws.EchoIsNotSummed`).
- The TCP header is looked for 34 bytes into the frame whatever length the IP header announces
  (`WireLayout.DecodeReads`).
- A record removed by FIN_WAIT1, or refused by the full table, is never freed: the ledger counts it
  under `removed` or `refused`.

## Model

| member | source | states |
|---|---|---|
| SeqArith.WrappingLtDecidesOrder | src/tcp/tcp.c:221-230 | for unbounded stream positions at most 2^31 apart, the wrapped comparison of residues says a < b exactly when a precedes b by less than 2^31 (the argument of section 2.3 of RFC 1323); at exactly 2^31 it denies both orders |
| SeqArith.BetweenIsArcMembership | src/tcp/tcp.c:232-235 | sound for every input; equal to membership in the open circular interval for all x if and only if the interval has at most 2^31 steps |
| SeqArith.LongArcRejects | src/tcp/tcp.c:232-235 | every longer interval contains a point that the function denies |
| SeqArith.BetweenTranslates | src/tcp/tcp.c:228-235 | adding a common offset to all three numbers changes no answer, wraparound included |
| SeqArith.SegmentCheckVsRfc793 | src/tcp/tcp.c:204-219 | over all inputs, everything the table of section 3.3 of RFC 793 accepts is accepted, and the two differ exactly on a non-empty segment that meets an open window with neither its first nor its last octet |
| SeqArith.AckAcceptableMeaning | src/tcp/tcp_syn_recv.c:24 | the test against una - 1 and nxt + 1 that three handlers share means una =< ack =< nxt, limited by the exact distances at which wraparound defeats it |
| Frame.FlagOctets | src/tcp/tcp_listen.c:12-39 | the octet that the listener asks for is exactly a bare SYN, and SYN, ACK, SYN and ACK, FIN and ACK, PSH and ACK are exactly the octets 0x02, 0x10, 0x12, 0x11, 0x18: comparing octets is comparing flags |
| Frame.FrameRoundTrip | src/tcp/tcp.c:166-191 | for every stamped packet of at most 65495 payload bytes, every receiver can read the frame; the one it is addressed to decodes exactly its quad, numbers, flags, window and payload, and every other receiver drops it |
| Frame.ChecksumCoversSegment | src/tcp/tcp.c:188-191 | the memory the TCP checksum reads equals the transmitted segment outside the checksum field if and only if `payload` begins with what is being sent |
| Frame.SendP | src/nic/nic.c:13-80 | copying headers and payload to their offsets in a packet buffer yields the frame in order, with nothing overlapping or missing |
| WireLayout.FrameBytes | src/nic/nic.c:13-80 | the position of every byte of every frame sent, both MAC addresses, identification, fragment offset and time to live included; each checksum is that of the bytes around it with its own two bytes zero |
| WireLayout.ChecksumOfSegment | src/tcp/tcp.c:185-191 | when `payload` holds the data, the TCP checksum on the wire is that of the segment as it stands there |
| WireLayout.DecodeReads | src/tcp/tcp.c:46-79 | for every frame that can be read: it is dropped if and only if a filter stops it, and otherwise each number is spelled at its offset, and the data begins 4 d bytes behind the start of the TCP header, d being the upper half of byte 46, and ends where the IP header says |
| WireLayout.AnyLayoutDecodes | src/tcp/tcp.c:62-79 | a frame with any TCP header of 5 to 15 words, any options, any payload and any padding decodes to exactly the header's numbers and the payload |
| WireLayout.DroppedFrames | src/tcp/tcp.c:48-60 | a frame for another MAC or IP address, of another EtherType or another protocol leaves the endpoint as it is |
| WireLayout.AddressedFrames | src/tcp/tcp.c:46-81 | any other frame is received as the segment it decodes to, and so is a burst of one |
| HandlerLaws.AcceptableIsChecked | src/tcp/tcp.c:204-219 | `segment_check` on a record is the test of section 3.3 of RFC 793 on distances, for empty segments; for others it asks for an open window only |
| HandlerLaws.AcknowledgesIsChecked | src/tcp/tcp_fin_wait1.c:17-18 | the test of an acknowledgement is una =< ack =< nxt on distances, up to half the sequence space |
| HandlerLaws.SynRecvLaw | src/tcp/tcp_syn_recv.c:7-38 | all inputs: an acceptable segment establishes or does nothing; an unacceptable one is answered exactly when it has SYN, under the number before snd.nxt and with the data that came, and snd.nxt ends where it was |
| HandlerLaws.SynSentLaw | src/tcp/tcp_syn_sent.c:7-36 | all inputs: every segment is answered by an ACK of the number after its own, whether or not it establishes |
| HandlerLaws.EstablishLaw | src/tcp/tcp_establish.c:12-48 | all inputs: what an unacceptable segment, a FIN, an empty segment and data each do to every field, to the wire and to the console |
| HandlerLaws.LateSegments | src/tcp/tcp_establish.c:19-39 | an empty segment without FIN moves snd.nxt exactly when its number lies in the window; out of it an empty segment changes nothing, FIN or not; nor does data with a closed window |
| HandlerLaws.FinWait1Law | src/tcp/tcp_fin_wait1.c:7-29 | all inputs: the last ACK and the removal, or nothing at all |
| HandlerLaws.OldAckCloses | src/tcp/tcp_fin_wait1.c:14-29 | any acknowledgement between una and snd.nxt ends the flow, however old, and no other does |
| HandlerLaws.FinWait2Law | src/tcp/tcp_fin_wait2.c:7-22 | all inputs of the handler that no run reaches |
| HandlerLaws.DispatchLaw | src/tcp/tcp.c:90-114 | each state has its own handler, LAST_ACK frees on any segment, and a state without a handler ignores it |
| HandlerLaws.ListenLaw | src/tcp/tcp_listen.c:9-63 | a bare SYN of an unknown flow gives a SYN-ACK numbered 0 that echoes its data, and a record with the window of the SYN, kept if there are fewer than 128 entries; any other segment of an unknown flow changes nothing |
| HandlerLaws.ConnectLaw | src/tcp/tcp.c:237-283 | a connect of a known flow does nothing, and of an unknown one sends a bare SYN with both numbers 0 |
| HandlerLaws.ForeignLaw | src/tcp/tcp.c:54-58 | a segment for another address changes nothing |
| HandlerLaws.EchoIsNotSummed | src/tcp/tcp.c:185-191 | an answer that echoes data is summed over the old content of the block, which is right only if that happens to be the same |
| HandlerLaws.CloseLaw | src/tcp/tcp.c:285-289 | from every state one FIN goes out and the record waits in FIN_WAIT1; for an unknown flow nothing happens |
| HandlerLaws.SendLaw | src/tcp/tcp.c:291-297 | in every state the data goes out under snd.nxt, which stays, and in front of the old `payload` |
| HandlerLaws.KnownFlowLaw | src/tcp/tcp.c:88-115 | what a handler's reply does to table, trace, console, counter and ledger |
| TcpEndpoint.Tcp.constructor | src/tcp/tcp.c:125-164 | a new endpoint has an empty table, nothing allocated and a balanced ledger |
| TcpEndpoint.Tcp.TcpTxPackets | src/tcp/tcp.c:166-202 | exactly one frame goes out, it carries the headers as stamped before SYN and FIN are counted, and the record afterwards has both bits cleared and counted |
| TcpEndpoint.Tcp.HandleTcpListen | src/tcp/tcp_listen.c:9-63 | answers a bare SYN only, from a fresh record; any other flags leave the whole endpoint unchanged |
| TcpEndpoint.Tcp.HandleTcpSynRecv | src/tcp/tcp_syn_recv.c:7-38 | record, trace, counter and counted set all end where the specification of SYN_RECV puts them, on each of the four paths |
| TcpEndpoint.Tcp.HandleTcpSynSent | src/tcp/tcp_syn_sent.c:7-36 | the successive overwrites of rcv.nxt, state, una and flags amount to the specification of SYN_SENT |
| TcpEndpoint.Tcp.HandleTcpEstablish | src/tcp/tcp_establish.c:12-48 | delivery, acknowledgement and the FIN reply: one print, at most one frame, and the state the specification names |
| TcpEndpoint.Tcp.AnswerFin | src/tcp/tcp_establish.c:20-27 | a FIN is answered by a FIN of our own from CLOSE_WAIT, and the record is left in LAST_ACK |
| TcpEndpoint.Tcp.TakeData | src/tcp/tcp_establish.c:33-39 | data is printed once and acknowledged by one empty segment that already carries the new numbers |
| TcpEndpoint.Tcp.HandleTcpFinWait1 | src/tcp/tcp_fin_wait1.c:7-29 | an accepted acknowledgement sends the last ACK and takes the entry out of the table; otherwise nothing at all changes |
| TcpEndpoint.Tcp.HandleTcpFinWait2 | src/tcp/tcp_fin_wait2.c:7-22 | the handler as written, equal to its specification although no run reaches it |
| TcpEndpoint.Tcp.CloseAndFree | src/tcp/tcp.c:97-102 | the handler's deletion, the free and the second deletion together remove one entry and free one record that was not freed before |
| TcpEndpoint.Tcp.Dispatch | src/tcp/tcp.c:90-114 | each state reaches its own handler and no other |
| TcpEndpoint.Tcp.RxSegment | src/tcp/tcp.c:75-115 | one received segment keeps the ownership invariant and moves the endpoint as the specification of a received segment does |
| TcpEndpoint.Tcp.RxFrame | src/tcp/tcp.c:42-119 | one frame: filters, decoding and dispatch together |
| TcpEndpoint.Tcp.RxBurst | src/tcp/tcp.c:29-120 | a burst is the frames one by one, with the invariant at its end |
| TcpEndpoint.BurstsConcatenate | src/tcp/tcp.c:29-120 | cutting the frames into bursts differently changes nothing |
| TcpEndpoint.BurstIsRun | src/tcp/tcp.c:42-119 | the effect of any burst is a run of received segments, so every property of runs holds after it |
| TcpEndpoint.Tcp.ActiveConnect | src/tcp/tcp.c:237-283 | a flow that is in the table changes nothing; a new one is filled in, sends its SYN and is offered to the table, with the invariant kept even when the table is full |
| TcpEndpoint.Tcp.ActiveClose | src/tcp/tcp.c:285-289 | one FIN goes out from any state, and the record ends in FIN_WAIT1 |
| TcpEndpoint.Tcp.ActiveSendData | src/tcp/tcp.c:291-297 | the data is in the frame and in front of the old rest of `payload`, and one frame goes out |
| TcpEndpoint.Tcp.ConsoleClose | src/cli/cli.c:316-343 | the command closes the flow it names or, when there is none, leaves the endpoint unchanged; no record is added to the table |
| TcpEndpoint.Tcp.ConsoleSend | src/cli/cli.c:347-374 | the command sends on the flow it names or, when there is none, leaves the endpoint unchanged; no record is added to the table |
| TcpEndpoint.FrameIsSegment | src/tcp/tcp.c:46-81 | receiving the frame of any stamped packet at its addressee is receiving the packet's segment |
| EndpointRuns.Perform | src/tcp/tcp.c:29-120 | one burst or one command, whichever it is, moves the object along the run of its events |
| EndpointRuns.Drive | src/tcp/tcp.c:75-115 | from the constructor, any bursts and commands in any order: the object is where the run of the events leads, every record satisfies the invariant of runs under its key, is allocated and not freed, no two keys share one, and allocated records are conserved |
| TcpEndpoint.Tcp.Applied | src/tcp/tcp.c:75-115 | whatever a handler or command did to one record through the heap, every other record is untouched, no record has two keys, and nothing is freed twice or left dangling |
| TcpEndpoint.Tcp.Entered | src/tcp/tcp.c:83-87 | a fresh record enters the table under its own quad, or is accounted as refused when the table is full |
| Ownership.HandleShape | src/tcp/tcp.c:90-114 | no handler changes a record's quad; a record is counted only when it leaves SYN_RECV, and never goes back there |
| Ownership.ReplyBalanced | src/tcp/tcp.c:97-102 | freeing, removing and keeping an entry all preserve the partition of the heap and the one-to-one table |
| Ownership.OpenBalanced | src/tcp/tcp.c:83-87 | so does opening, with room in the table and without |
| Ownership.BlocksConserved | src/tcp/tcp.c:83-102 | as many records allocated as are in the table, freed, removed and refused together |
| TcpSpec.RunConcat | src/tcp/tcp.c:29-120 | a run may be cut anywhere, so boundaries between bursts and commands leave no trace |
| TcpRuns.ControlBitsCountedOnce | src/tcp/tcp.c:166-202 | a SYN or FIN is counted into snd.nxt by the transmission that carries it, and a later transmission of the same record counts nothing again |
| TcpRuns.OpeningAcks | src/tcp/tcp_syn_recv.c:24 | with una = 0 and snd.nxt = 1, exactly the acknowledgements 0 and 1 pass |
| TcpRuns.SynSentCheckPasses | src/tcp/tcp_syn_sent.c:12-14 | the segment check in SYN_SENT can never fail |
| TcpRuns.HandleGood | src/tcp/tcp.c:90-114 | from any record that satisfies the invariant: if the entry stays the invariant holds again, at most one packet is sent, it has ACK set, travels the record's flow and reports the numbers the record is left with, and the counter moves exactly when SYN_RECV becomes ESTABLISHED |
| TcpRuns.StepKeeps | src/tcp/tcp.c:75-115 | every event keeps the invariant and the endpoint's address |
| TcpRuns.RunKeeps | src/tcp/tcp.c:29-120 | every finite run keeps it |
| TcpRuns.EveryRun | src/tcp/tcp.c:75-115 | from the empty table, after any run: consistent keys and headers, five possible states, clear SYN and FIN bits, una at most 2, and conservation of records |
| TcpRuns.OpeningEstablishes | src/tcp/tcp_syn_sent.c:12-27 | SYN_RECV is left for ESTABLISHED exactly by an acceptable segment that acknowledges 0 or 1, SYN_SENT exactly by an acknowledgement of 0 or 1; una is then 1 or 2 |
| TcpRuns.StepEdges | src/tcp/tcp.c:90-114 | one step changes at most the connection it is about, along an edge of the machine; an entry disappears only from FIN_WAIT1 or LAST_ACK |
| TcpRuns.StepCounts | src/tcp/tcp_syn_recv.c:24-34 | one step increments the counter exactly when some connection went from SYN_RECV to ESTABLISHED |
| TcpRuns.CountIsPassiveOpens | src/tcp/tcp_syn_recv.c:24-34 | over every run `stats.connection_count` is the number of passive opens that reached ESTABLISHED, modulo 2^64 |
| TcpRuns.StepSends | src/tcp/tcp.c:166-202 | one step sends at most one packet; it acknowledges unless it is the opening SYN of `active_connect`, it belongs to the event's flow, and its seq and ack are those of the record the event leaves behind, in the table, out of it or refused |
| TcpRuns.EverythingSent | src/tcp/tcp.c:166-202 | every packet of every run acknowledges or is an opening SYN, has this endpoint's address and meets the conditions of the frame round trip |
| TcpRuns.SendIsSummed | src/tcp/tcp.c:291-297 | what `active_send_data` transmits is what its checksum covered, apart from the checksum field |
| TcpRuns.SynAckAgain | src/tcp/tcp_syn_recv.c:14-23 | a duplicate of the opening SYN leaves the record unchanged except for the IP identification and repeats the SYN-ACK |
| TcpRuns.DuplicateStep | src/tcp/tcp_syn_recv.c:14-23 | one duplicate changes nothing else in the endpoint: no entry, no allocation, no count |
| TcpRuns.DuplicateSyns | src/tcp/tcp_syn_recv.c:14-23 | any number k of duplicates with any traffic of other flows in between: the flow has sent k further SYN-ACKs and nothing else, all with the numbers and flags of the first, its record has changed in the IP identification alone, and no second entry for it exists |
| TcpRuns.OpeningThenDuplicates | src/tcp/tcp_listen.c:9-63 | the same from the opening SYN itself, with the first SYN-ACK, its sequence number 0 and its acknowledgement irs + 1 |
| Duplex.Connects | src/tcp/tcp.c:246-278 | `active_connect` leaves the flow in SYN_SENT with una 0, snd.nxt 1, rcv.nxt 0, having sent one SYN numbered 0; with a full table the SYN goes out and the table stays as it was |
| Duplex.Listens | src/tcp/tcp_listen.c:9-63 | a peer's opening SYN leaves the flow in SYN_RECV, answered by a SYN-ACK numbered 0 that acknowledges 1; with a full table the SYN-ACK goes out and the table stays as it was |
| Duplex.Drops | src/tcp/tcp_listen.c:12-14 | a segment of an unknown flow that is not a bare SYN changes nothing |
| Duplex.ActivelyEstablishes | src/tcp/tcp_syn_sent.c:7-36 | the peer's SYN-ACK establishes the opener with una 2 |
| Duplex.PassivelyEstablishes | src/tcp/tcp_syn_recv.c:24-34 | any segment with data, or an empty one in sequence, establishes the listener; nothing is printed |
| Duplex.Delivers | src/tcp/tcp_establish.c:33-39 | a non-empty segment is printed and acknowledged whatever its sequence number |
| Duplex.TakesAck | src/tcp/tcp_establish.c:30-32 | an empty segment in sequence only moves snd.nxt to what it acknowledges |
| Duplex.OtherTraffic | src/tcp/tcp.c:75-115 | an event about another flow neither touches this flow's record nor prints for it |
| Duplex.MoveKeeps | src/tcp/tcp_establish.c:19-39 | every move of the two-endpoint system leads from one phase of handshake and outstanding send to the phase that its segment determines, with both records, both channels and both print histories as the phase says |
| Courses.LostIsNeverAcknowledged | src/tcp/tcp_syn_sent.c:12-27 | once data was sent in SYN_SENT, the sender is never told that it arrived |
| Courses.EarlySendIsLost | src/tcp/tcp.c:291-297 | a non-empty send in SYN_SENT leads from any point of the handshake to a course where those bytes are not printed |
| Courses.LostKeeps | src/tcp/tcp_syn_recv.c:24-34 | every move keeps to that course: the listener takes the data segment for the end of the handshake, and both ends still establish |
| Courses.RefusalStrands | src/tcp/tcp.c:83-87 | a SYN that meets a full table is answered without an entry, whatever follows it in the channel |
| Courses.StrandedKeeps | src/tcp/tcp.c:83-87 | once either table has refused the record, every move keeps both print histories as they were, however much the end with an entry sends |
| Courses.CourseKeeps | src/tcp/tcp.c:75-115 | every move leads to the course that the two guards determine, and every delivery to one delivery less before nothing is in flight |
| Courses.RunCourse | src/tcp/tcp_establish.c:19-39 | every state of every run is refused exactly when a table was full, lossy exactly when both had room and something was sent in SYN_SENT, and sound otherwise |
| Delivery.DeliveryDecided | src/tcp/tcp_establish.c:19-39 | at every point of every run each side has printed a prefix of what the other was given to send; when the channels are empty, each side's snd.nxt is the other's rcv.nxt modulo 2^32, after any number of wraparounds, if and only if both tables had room; everything is printed, acknowledged and established if and only if they had and nothing was sent in SYN_SENT; and printing is complete in no other run that was given a byte |
| Delivery.EarlySendPossible | src/cli/cli.c:347-374 | a send in SYN_SENT is possible as soon as the SYN is out |
| Delivery.Progress | src/tcp/tcp.c:42-119 | whatever is in flight can be delivered, and no run makes more than three deliveries and two for every send |
| Delivery.Drain | src/tcp/tcp.c:42-119 | on any course exactly the remaining number of deliveries empties both channels |
| Delivery.EveryRunFinishes | src/tcp/tcp.c:42-119 | every run continues by deliveries alone to one with nothing in flight |
| Delivery.BytesArrive | src/tcp/tcp.c:46-81 | at every point of every run, receiving the frame of the first segment in flight is the delivery that the run makes |
| Delivery.Transfers | src/tcp/tcp_establish.c:19-39 | from an idle connection any bytes of either side go through in sends of at most 100 and leave it idle |
| Delivery.EveryTransfer | src/tcp/tcp_establish.c:19-39 | for any two endpoints with room and any bytes in both directions, some run from the connect on ends settled with exactly these bytes delivered |
| Closing.SpanDecides | src/tcp/tcp_fin_wait1.c:17-18 | an acknowledgement of everything passes the test in FIN_WAIT1 if and only if (snd.nxt - una + 1) mod 2^32 lies strictly between 0 and 2^31 |
| Closing.Closes | src/tcp/tcp.c:285-289 | the closer sends one FIN and counts it |
| Closing.AnswersFin | src/tcp/tcp_establish.c:20-27 | the peer answers with its own FIN that acknowledges the closer's |
| Closing.FinWait1Decides | src/tcp/tcp_fin_wait1.c:7-29 | the closer either sends the last ACK and drops the entry, or ignores the peer's FIN without any change |
| Closing.LastAckFrees | src/tcp/tcp_last_ack.c:7-14 | in LAST_ACK any segment at all ends the connection and frees its record |
| Closing.CloseStage | src/tcp/tcp_fin_wait1.c:14-29 | every state of every closing exchange, with any other traffic at both ends, is one of five stages, and the deliveries made and remaining are three together, or two when it gets stuck |
| Closing.CloseOutcome | src/tcp/tcp_fin_wait1.c:14-29 | when nothing is in flight: both tables have dropped the flow after exactly three segments if the deciding number lies strictly between 0 and 2^31, and otherwise the closer waits in FIN_WAIT1 and the peer in LAST_ACK after two |
| Closing.CloseProgress | src/tcp/tcp_fin_wait1.c:14-29 | as long as a segment is in flight it can be delivered, and at most three deliveries are made |
| Closing.CloseDrain | src/tcp/tcp_fin_wait1.c:14-29 | from every stage the remaining deliveries finish the exchange |
| Closing.CloseAfterDelivery | src/tcp/tcp_fin_wait1.c:14-29 | after a settled half-duplex run with T bytes sent by the closer the number is (T + 1) mod 2^32 for the active opener and (T + 3) mod 2^32 for the passive one |
| Closing.CloseAfterAnyTransfer | src/tcp/tcp_fin_wait1.c:14-29 | for any bytes in both directions and either closer, some run transfers them and a complete close follows, which ends both connections or leaves both waiting as the closer's number of bytes decides |
| Closing.StuckCloses | src/tcp/tcp_fin_wait1.c:14-29 | the failing inputs are reached: after 2^31 - 1 bytes from the opener its close ends with both waiting, and so does the listener's after 2^31 - 3 |
| Inet4.InetPton4 | src/cli/parser.c:364-402 | accepts exactly the grammar's texts, writes its four bytes only on success and touches nothing else |
| Inet4.Parse4Grammar | src/cli/parser.c:364-402 | the texts are four dot-separated non-empty decimal groups of value at most 255, leading zeros allowed, each text with one value |
| Inet4.Print4Parses | src/cli/parser.c:364-402 | parsing inverts dotted-quad printing for every address |
| Inet4.ParseIpv4Addr | src/cli/parser.c:559-569 | the same behind the length check: -EINVAL and an untouched destination on failure |
| Inet4.Print4Fits | src/cli/parser.c:562-563 | no printed address is refused for its length |
| Inet6.ScanText | src/cli/parser.c:439-484 | the loop keeps tp = tmp + 2 * dbloct_count within the buffer with zeros behind it, its check for a value beyond 0xffff never fires, and what it stops with decides the text |
| Inet6.ExpandGap | src/cli/parser.c:497-509 | the shift in place gives prefix, zeros, suffix: no byte is overwritten before it is read, overlap included |
| Inet6.Complete | src/cli/parser.c:485-511 | the last group, the check for eight double octets and the expansion of "::" together |
| Inet6.InetPton6 | src/cli/parser.c:417-514 | sixteen bytes exactly when the text is an address, and an untouched destination otherwise |
| Inet6.Parse6Grammar | src/cli/parser.c:417-514 | accepted are exactly the renderings of: groups of one to four hex digits, eight double octets without "::" or at most seven with one "::", a dotted tail counting two and coming last; each with the grammar's value |
| Inet6.RenderedIsAccepted | src/cli/parser.c:439-513 | every rendering is accepted with its value |
| Inet6.AcceptedIsRendered | src/cli/parser.c:439-513 | every accepted text is the rendering of an address with the parsed value |
| Inet6.PrintParses | src/cli/parser.c:417-514 | for every sixteen bytes and every choice of a non-empty run of zero groups (or none) and a dotted tail (or none), printing by section 2.2 of RFC 4291 and parsing gives the bytes back |
| Inet6.PrintedFits | src/cli/parser.c:574-575 | no such text is refused for its length |
| Inet6.ParseIpv6Addr | src/cli/parser.c:571-581 | the parser behind its length check |
| Text.FourDigitsFit | src/cli/parser.c:446-451 | four hex digits never exceed 0xffff |
| ParserLaws.DigitRows | src/cli/parser.c:420-455 | a character is a hexadecimal digit exactly when it stands in the lower-case or the upper-case row, and its value is its index there |
| ParserLaws.Parse6Case | src/cli/parser.c:417-514 | two texts that differ in the case of letters only are read alike |
| ParserLaws.PrintParsesInAnyCase | src/cli/parser.c:417-514 | any printed address, with any choice of case for each of its digits, gives its sixteen bytes back |
| ParserLaws.AddressTexts | src/cli/parser.c:439-513 | the addresses that can be written: groups of one to four hexadecimal digits, "::" for one group at least, a dotted quad at the end |
| ParserLaws.AddressOrder | src/cli/parser.c:485-513 | groups become bytes in order, high byte first, what follows "::" stands at the end, the dotted quad in the last four bytes, and the rest is zero |
| ParserLaws.QuadTexts | src/cli/parser.c:374-401 | accepted are four decimal numerals of value at most 255, of any length, and the first is the first byte |
| ParserLaws.MacTextsParse | src/cli/parser.c:516-557 | accepted are six hexadecimal numerals up to 255 or three up to 65535, of any length, and the first is the first byte, or the first two, high byte first |
| ParserLaws.ParseMacCase | src/cli/parser.c:516-557 | the case of letters does not matter in a MAC address |
| ParserLaws.PrintedMacInAnyCase | src/cli/parser.c:537-554 | both texts of any six bytes, with any choice of case for each digit, give the bytes back |
| EtherAddr.StrtoulHex | src/cli/parser.c:526-529 | on plain text the number read is that of the longest run of digits, out of range beyond 64 bits |
| EtherAddr.MyEtherAton | src/cli/parser.c:516-557 | the field loop accepts exactly the two forms of the grammar |
| EtherAddr.Assemble | src/cli/parser.c:537-554 | filling the bytes from the last field to the first, stopping at the first field too large, gives the grammar's value or nothing |
| EtherAddr.ParseMacGrammar | src/cli/parser.c:516-557 | accepted are exactly six colon-separated fields up to 0xff or three up to 0xffff, each with one value |
| EtherAddr.PrintedMacParses | src/cli/parser.c:537-554 | both texts of any six bytes give the bytes back |
| EtherAddr.ParseMacAddr | src/cli/parser.c:583-594 | the destination is written on success only |
| LineFramer.Conn.DataEventHandle | src/config/conn.c:207-271 | one read has the effect of feeding its bytes, then a prompt; an empty read has none; the buffer never exceeds its maximum |
| LineFramer.Conn.HandleByte | src/config/conn.c:228-261 | one turn of the loop through the buffer in place |
| LineFramer.FeedConcat | src/config/conn.c:228-261 | feeding two pieces in turn is feeding their concatenation, from any buffer |
| LineFramer.SessionIsFeed | src/config/conn.c:207-271 | apart from prompts, a whole session is the feeding of its stream |
| LineFramer.ChunkingIrrelevant | src/config/conn.c:228-261 | any two divisions of one stream into reads give the same messages, replies and notices in order and the same buffer |
| LineFramer.LongLine | src/config/conn.c:229-260 | from an empty buffer a line of L bytes gives exactly L div (M + 1) notices and then delivers exactly its last L mod (M + 1) bytes |
| LineFramer.LineAnswered | src/config/conn.c:229-248 | a line that fits gives the message and directly behind it the handler's reply, or the message alone when the reply is empty |
| LineFramer.RepliesFollow | src/config/conn.c:228-261 | over any stream every delivered message is followed at once by its non-empty reply, and replies stand nowhere else |
| LineFramer.EachReadPrompts | src/config/conn.c:263-268 | every read of a session adds what its bytes bring about and then exactly one prompt |
| LineFramer.SessionConcat | src/config/conn.c:207-271 | two sessions in a row are one |
| LineFramer.EveryByteAccounted | src/config/conn.c:228-261 | every stream is cut into delivered lines with their delimiters, dropped stretches of M + 1 bytes and a pending rest, and the outputs are those of the pieces |
| LineFramer.PiecesFed | src/config/conn.c:228-261 | conversely any such sequence of pieces produces exactly its own outputs and rest |
| LineFramer.AccountUnique | src/config/conn.c:228-261 | every stream has one account only, so every byte is delivered, delimiter, dropped or pending in exactly one way |

## Left out

- The packet driver: queues, packet buffers and their pools, ports and cores, and the buffer's own 16-bit length. A received frame is its bytes; a transmitted one is appended to `wire`.
- `rte_hash` is a map of capacity 128 that refuses a new key when full; hashing and key layout are not modelled.
- `rte_malloc` always succeeds; what the block held before is the parameter `mem`, arbitrary for every allocation.
- The checksum routines are parameters of `Nic`; what they compute over which bytes is fixed, their arithmetic is not. The stored checksum fields are not part of a record, since nothing reads them back.
- `payload` is a 100-element sequence field, because the C record embeds the array by value; replacing an element is the in-place write.
- TcpEndpoint.Tcp.ActiveSendData: sends of at most 100 bytes; the C loop writes past `payload` for longer ones.
- TcpEndpoint.Tcp.ConsoleSend: the same bound.
- TcpEndpoint.Tcp.RxFrame: frames that hold the bytes their lengths announce (`Frame.Readable`); the C code reads memory behind a shorter frame, and computes with a negative payload size when the lengths contradict each other.
- TcpEndpoint.Tcp.RxBurst: bursts of such frames.
- EndpointRuns.Drive: the same two bounds on sends and frames.
- TcpSpec.Step: the console thread and the receive cores interleave by whole segments and whole commands; data races between them are not modelled, and cores own disjoint tables.
- `stats.first_connection` and `stats.last_connection`, clock readings that nothing else depends on.
- Delivery.DeliveryDecided: one unacknowledged send at a time over both sides, and an opener's send in SYN_SENT is not empty (the console has no empty tokens); overlapping and simultaneous sends, a second connect of the same flow, and lossy or reordering channels are outside.
- Closing.CloseOutcome: starts from two quiet established ends; simultaneous close, data behind a FIN, and segments of other origin in the closing flow are outside.
- Closing.LastAckFrees: the peer's record is freed, the closer's is only removed from its table, as in the code.
- EtherAddr.StrtoulHex: texts of hex digits and colons only; the blanks, signs and 0x prefix that `strtoul` also takes are outside.
- EtherAddr.MyEtherAton: the same texts only, and not the static result buffer.
- EtherAddr.ParseMacAddr: the same texts only.
- LineFramer.Conn.DataEventHandle: successful reads and writes only; the message handler is a function from the message to its reply, and several clients sharing one `struct conn` are one stream. A line that contains a NUL byte is handed over whole, where the C handler would see it end at the NUL.
- Retransmission timers, reassembly, congestion control, TIME_WAIT and TCP options do not exist in the code. `src/tcp/tcp_close_wait.c` is a stub.
- The console's command parsing and help, `string_to_ip` and `string_to_mac`, the number, label and core parsers, configuration files, epoll and sockets, dump functions and printing formats.
