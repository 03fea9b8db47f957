# Verified models of three small network protocols

This project models the three components of the repository that carry real state or a real
wire format, and proves what they promise about every input and every run. Where a promise
turns out false of the code, the code is kept as it is, a concrete run shows the failure, and
the exact condition under which the promise does hold is proved instead.

**Stop-and-wait transfer** (`hw4-py/dt`). Both sender threads, the receiver and the channel are
cut into the steps between which another thread may run; in particular raising the counter
and setting the event are two steps. A run is any schedule of steps.
`AckWaitUdt` has the two classes and the step functions they carry out, `Framing` the
datagrams, `Transfer` the system, its invariant and prefix safety, `Execution` the two objects
carrying out any schedule, `Recovery` what can and cannot be made good after duplicate
acknowledgements, `LossyTransfer` the well-behaved setting in which everything is delivered,
`Surplus`, `CalmRuns` and `Acknowledged` when an acknowledged message is a delivered one, and
`Overlong` which inputs can break the prefix property. `Utf8` and `PyText` are the text
operations underneath.

- Prefix safety holds for payloads that fit the 4096-byte receive buffer with their number, and
  fails for longer ones (`Transfer.DeliveredIsPrefixIff`, `Recovery.LongPayloadIsCut`);
  `Overlong.PrefixBreaksIff` says exactly for which inputs it can fail.
- An acknowledged message need not be delivered (`Recovery.AcknowledgedYetLost`). It is,
  throughout a run and whatever fault-free steps follow, exactly as long as the transmissions
  made or decided, duplicates included, do not outnumber the messages and the losses
  (`Acknowledged.AcknowledgedIsDeliveredIff`). `Recovery.DeliverableIffRecoverable` says which
  messages can still be delivered, and `Transfer.GapArisesIff` when the numbering goes astray.
- Statements about delivered messages carry `Framing.Short`: the number has fewer than 4096
  digits, that is, fewer than 10^4095 messages.

**Rendezvous** (`UDP-Hole-Punching`). `BitStrings` and `StunCodec` are the codec,
`Addresses` and `MatchTables` the server's tables, `StunServers` one turn and the loop of the
server, `ServerRuns` its runs, `StunClients` the client, `Rendezvous` any number of
clients, the server and a network that may lose, duplicate, reorder and delay, and `Meeting`
what such a system can come to. An exception in the server's loop ends the process and is the
terminal state `Crashed`.

- The repository's own documentation says that messages with errors are dropped
  (UDP-Hole-Punching/README.md:81-82). The code instead lets the exception end the server;
  `ServerRuns.ServerEndsIff` gives the exact condition, and `Meeting` runs that reach it with
  well-behaved clients.
- `Rendezvous.WellFormed` is what a deployment has to provide: distinct non-empty ids that fit
  a datagram, one valid address a client, and unique transaction ids. Text typed by users is
  arbitrary except that it is not itself a success response with a live transaction id.

**DNS server** (`hw2/UDP`). `DnsWire` is the wire format, `DnsParser` the parser over a byte
array, `DnsResolver` the resolver and serializer, `DnsServer` one turn of the server,
`DnsLoader` the record file, `Arrays` the growing tables of both. `DnsNames`, `DnsProperties`,
`DnsReference` and `DnsRoundTrip` hold the properties; `DnsReference` is a decoder written from
RFC 1035 rather than from the code. The parser checks bounds late, so its results distinguish
rejection from an access outside the buffer or the label array (`Overread`, `Overrun`), and
the server's from `Undefined`; the properties are about every buffer for which there is a
reply.

- The program's parser does not know compression pointers, so it is the inverse of the
  serializer on header and question only: it rejects every successful response
  (`DnsRoundTrip.SuccessfulResponseRejected`).
- The program takes every length byte from 1 to 255 for that of a plain label. It answers
  questions with labels of 64 bytes and more as well, in bytes that RFC 1035 does not read as
  that name; `DnsReference.AnswerDecodes` gives the exact condition and
  `DnsRoundTrip.LongLabelIsAnswered` an input.
- The loader takes the last byte of a line's second word for the line end. A last line without
  one, or a blank before it, costs the name its last byte (`DnsLoader.NameLosesByte`).

In all modules `None` stands for an exception that leaves a Python function. Python bytes are
integers below 256, C bytes and words are bit vectors, so wrap-around and shifts are the
machine's. `dafny verify dfyconfig.toml` checks the project.

## Model

| member | source | states |
|---|---|---|
| Transfer.DeliveredIsPrefix | hw4-py/dt/receiver.py:53-65 | In every interleaving of the two sender threads and the receiver, over a channel that drops, duplicates and reorders both ways, the receiver's queue is a prefix of the payloads put in, for all inputs whose payloads fit the receive buffer with their place as number; duplicate acknowledgements change nothing |
| Transfer.DeliveredIsPrefixIff | hw4-py/dt/receiver.py:55-63 | The exact condition of prefix safety in every reachable state: the queue is a prefix of the payloads taken if and only if each delivered payload fitted the 4096 bytes of `recvfrom` together with its number and the underscore |
| Transfer.DeliveredInOrder | hw4-py/dt/receiver.py:53-65 | In every reachable state, without a condition on the payloads: the i-th delivery comes from the i-th payload taken, each at most once, and is the part of it that the receive buffer holds |
| Recovery.LongPayloadIsCut | hw4-py/dt/receiver.py:55-63 | The concrete input on which the prefix property fails: a first payload of 4095 bytes is delivered without its last byte |
| Overlong.PrefixBreaksIff | hw4-py/dt/receiver.py:55-63 | For a given input, some run breaks the prefix property if and only if its first payload that is not a text fitting the receive buffer is a text that the buffer cuts between two characters |
| Transfer.NextKeepsInv | hw4-py/dt/sender.py:66-86 | Every step of either sender thread, the receiver or the channel keeps: signals cover completed messages, numbers are at least the place and do not decrease, only frames of numbered messages travel, delivered messages carry the numbers 1 to n |
| Transfer.ReachableInv | hw4-py/dt/sender.py:66-86 | The invariant holds after every schedule from the start |
| Transfer.NumbersRunAhead | hw4-py/dt/sender.py:63-80 | The k-th message is stamped with a number at least k, stamps never decrease or pass the counter, and the number delivered equals the receiver's counter and never exceeds the longest run of stamps 1, 2, ..., n |
| Transfer.IntactLength | hw4-py/dt/receiver.py:61-63 | That longest run: the only length such that exactly the prefixes up to it are stamped by their places |
| Transfer.GapArisesIff | hw4-py/dt/sender.py:69-77 | Stamping a message leaves the stamps 1, 2, ..., n intact exactly when they were intact and as many acknowledgements have been counted as messages stamped |
| Transfer.GapIsFinal | hw4-py/dt/receiver.py:61-63 | Once message k carries another number than its place, no continuation whatsoever delivers it or any later one |
| Recovery.DeliverableIffRecoverable | hw4-py/dt/sender.py:76-86 | Which messages an unreliable channel can still deliver, exactly: a continuation that delivers the first k exists if and only if each undelivered one carries its place, is readable, and has a copy on the wire, at the receiver or with the sender, and the receiver thread survives what it holds |
| Recovery.NothingComesBack | hw4-py/dt/sender.py:76-86 | No step of any thread or of the channel makes an unrecoverable message recoverable |
| Recovery.Recover | hw4-py/dt/receiver.py:53-65 | The constructive half: the schedule of retransmissions and receptions that delivers recoverable messages |
| Recovery.AckEndsWait | hw4-py/dt/sender.py:66-74 | Any acknowledgement, whatever it acknowledges, ends the wait: the four steps from its arrival raise the counter by one and complete the current message |
| Recovery.AcknowledgedYetLost | hw4-py/dt/sender.py:66-86 | "Acknowledged means delivered" is false: a reachable state with two completed messages from which no continuation ever delivers the second |
| Acknowledged.AcknowledgedIsDeliveredIff | hw4-py/dt/sender.py:66-86 | The exact condition of "acknowledged means delivered", in terms of the channel and the timeouts alone, for text payloads that fit the receive buffer with their place and with the next number: it holds at every point of a run, whatever steps without further fault follow, if and only if at no point the transmissions made or decided, duplicates included, outnumber the messages and the losses |
| Acknowledged.WithinBudgetDelivers | hw4-py/dt/sender.py:66-86 | In every run in which transmissions and duplicates never outnumber messages and losses, every completed message has been delivered |
| Acknowledged.SurplusLosesMessage | hw4-py/dt/sender.py:66-86 | From any reachable state in which they do, with both threads alive and frames that fit, the sender completes, without a further loss, duplicate or early timeout, a message that no continuation delivers |
| Surplus.NextKeepsBooks | hw4-py/dt/sender.py:66-86 | Conservation: what is transmitted or duplicated and not lost is in flight, being handled, or counted by the sender; and while the event is down, nothing was counted since the message was numbered |
| Surplus.NextKeepsInStep | hw4-py/dt/sender.py:63-86 | Within the budget each step keeps stamps intact and at most the last message undelivered, with only its own datagrams about |
| CalmRuns.Drain | hw4-py/dt/sender.py:66-74 | Whatever is outstanding can always be brought to its end without a fault, and then the counter is exactly the transmissions and duplicates not lost, plus one |
| LossyTransfer.NextKeepsLossyInv | hw4-py/dt/sender.py:69-86 | Over a channel that only loses, with timeouts only when nothing is in flight or being handled, and for payloads that fit the receive buffer, each step keeps at most one datagram or acknowledgement outstanding, its place fixing both counters and the transmissions made, and pays for itself out of a bounded amount of work |
| LossyTransfer.CountersInStep | hw4-py/dt/receiver.py:61-65 | There the receiver's counter is the sender's or one less in every run, and every completed message has been delivered |
| LossyTransfer.TransmissionsAreMessagesPlusLosses | hw4-py/dt/sender.py:79-85 | There N messages with L losses take at most N + L transmissions, and exactly N + L when the sender is idle |
| LossyTransfer.RunIsBounded | hw4-py/dt/sender.py:76-86 | There no run goes on for ever: its length is at most 13 steps a payload plus 6 a loss |
| LossyTransfer.NeverStuck | hw4-py/dt/sender.py:76-86 | There some step other than new input or a loss is possible until the sender has nothing left to do |
| LossyTransfer.MaximalRunDelivers | hw4-py/dt/sender.py:76-97 | There every run that cannot go on has delivered the whole input, up to a payload that is not text and ends the sending thread, with one transmission a message and one more a loss |
| Execution.Execute | hw4-py/dt/sender.py:66-97 | Every run of the system is a run of one sender object and one receiver object: the step methods below, called in the order of the schedule, show exactly its states |
| AckWaitUdt.AckWaitUdtSender.StampStep | hw4-py/dt/sender.py:63-64 | Numbers the payload in hand with the counter of this moment; a payload that is not text ends the thread |
| AckWaitUdt.AckWaitUdtSender.WaitStep | hw4-py/dt/sender.py:83-85 | The wait ends the message when the event is up and falls into the resend when it times out |
| AckWaitUdt.AckWaitUdtSender.BumpStep | hw4-py/dt/sender.py:71 | Counts the acknowledgement and nothing else; the event is a step of its own |
| AckWaitUdt.AckWaitUdtSender.SetEventStep | hw4-py/dt/sender.py:72 | Sets the event and nothing else |
| AckWaitUdt.AckWaitUdtSender.ClearEventStep | hw4-py/dt/sender.py:78-79 | Clears the event before the payload is taken |
| AckWaitUdt.AckWaitUdtSender.GetStep | hw4-py/dt/sender.py:80 | Takes the oldest payload and leaves the others |
| AckWaitUdt.AckWaitUdtSender.SendStep | hw4-py/dt/sender.py:83-85 | Sends the frame that was stamped, then waits; a resend sends the same bytes |
| AckWaitUdt.AckWaitUdtReceiver.TakeStep | hw4-py/dt/receiver.py:55 | Receives at most the 4096 bytes of a datagram that the buffer holds |
| AckWaitUdt.AckWaitUdtReceiver.AckStep | hw4-py/dt/receiver.py:65 | Acknowledges every datagram examined, accepted or not, with the seven bytes of "ack of " and behind them exactly the bytes received |
| AckWaitUdt.AckWaitUdtReceiver.ExamineStep | hw4-py/dt/receiver.py:57-63 | Accepts a datagram exactly when its number is the counter plus one; an unreadable one ends the thread |
| AckWaitUdt.AckWaitUdtReceiver.RcvData | hw4-py/dt/receiver.py:53-65 | The receive loop, over any arrivals: queue and counter are those of the turns one after the other; the acknowledgements echo the datagrams received one by one, up to the first unreadable one, and the thread goes on exactly when there is none |
| AckWaitUdt.TurnMeaning | hw4-py/dt/receiver.py:53-65 | What one turn delivers: the payload of a readable datagram that carries the next number, nothing otherwise, and an unreadable one ends the thread |
| AckWaitUdt.TurnsOneMore | hw4-py/dt/receiver.py:53-65 | The loop takes its turns one after the other until one ends the thread |
| AckWaitUdt.AckDecodes | hw4-py/dt/receiver.py:65 | The acknowledgement of a text reads "ack of " and the text; that of bytes that are no text is no text |
| AckWaitUdt.DuplicateIgnored | hw4-py/dt/receiver.py:61-65 | Once a datagram was accepted, a later copy, whatever arrived in between, is acknowledged and changes neither queue nor counter |
| AckWaitUdt.TurnsCountPayloads | hw4-py/dt/receiver.py:61-63 | Whatever arrives, the queue only grows and the counter is its length |
| Framing.FramingRoundTrip | hw4-py/dt/receiver.py:58-61 | The receiver's split and slice recover exactly the counter and payload that were framed, for every counter and every text, underscores and leading digits included |
| Framing.ReadSeqMeaning | hw4-py/dt/receiver.py:57-61 | What the receiver reads of any bytes: number before the first underscore, payload behind it; without an underscore all is the number; bytes that are no text raise |
| Framing.FrameBytes | hw4-py/dt/sender.py:63-64 | A frame is the decimal digits of the counter, one underscore and the payload bytes as they came |
| Framing.ReadOfReceived | hw4-py/dt/receiver.py:55-61 | Of a frame cut at 4096 bytes the receiver reads the right number and the part of the payload that fits, or raises when that part ends inside a character |
| Framing.ReadOfLong | hw4-py/dt/receiver.py:55-61 | A number too long for the buffer is never mistaken for a short one |
| PyText.ParseOfPrint | hw4-py/dt/receiver.py:61 | `int` undoes the decimal printing of the counter |
| PyText.ParseIntIff | hw4-py/dt/receiver.py:61 | `int` reads exactly blanks, a sign or none, digits and blanks, to their decimal value |
| PyText.PrintIff | hw4-py/dt/sender.py:63-64 | The printed counter is the one row of decimal digits without a leading zero that has its value |
| Utf8.DecodeOfEncode | hw4-py/dt/receiver.py:57-59 | `decode` undoes `encode` on every text |
| Utf8.EncodeOfDecode | hw4-py/dt/sender.py:63-64 | Bytes that decode are exactly the encoding of what they decode to, so strict decoding is unambiguous |
| BitStrings.PrintedAtWidth | UDP-Hole-Punching/shared/utils.py:22-42 | A number is printed at a width exactly when it fits; the print has that width and reads back to the number |
| BitStrings.ReadThenPrinted | UDP-Hole-Punching/shared/utils.py:22-42 | A bit string read and printed at its own width is the same string |
| BitStrings.StringToByteArray | UDP-Hole-Punching/shared/utils.py:59-68 | The loop yields one byte for each eight characters, in order, and fails exactly on a ragged length or a chunk that Python does not read as a number from 0 to 255 in base 2 |
| BitStrings.ParseBinaryIff | UDP-Hole-Punching/shared/utils.py:37-42 | `int` in base 2 reads exactly blanks, a sign or none, a prefix or none, bits with single underscores between them, and blanks |
| BitStrings.NumeralIff | UDP-Hole-Punching/shared/utils.py:59-68 | Its bits are groups with one underscore between any two, worth what the bits alone are worth |
| BitStrings.ChunkBytesIff | UDP-Hole-Punching/shared/utils.py:59-68 | Packing succeeds exactly when every eight characters read as a number from 0 to 255, and yields these numbers |
| BitStrings.ParseOfBits | UDP-Hole-Punching/shared/utils.py:37-42 | Reading in base 2 gives the number a string of bits prints, and refuses the empty string |
| BitStrings.ChunkBytesOfBits | UDP-Hole-Punching/shared/utils.py:59-68 | Every string of bits of a length divisible by eight is packed, to the bytes of each eight bits |
| BitStrings.OctetsOfBits | UDP-Hole-Punching/shared/STUN_protocol.py:65-66 | Unpacking bytes to bits and packing them again gives the bytes back |
| BitStrings.BitsOfOctets | UDP-Hole-Punching/shared/utils.py:59-68 | Packing bits and unpacking the bytes again gives the bits back |
| BitStrings.OctetsAreBigEndian | UDP-Hole-Punching/shared/utils.py:59-68 | The packed bytes are the big-endian bytes of the number the bits print |
| StunCodec.EncodesIff | UDP-Hole-Punching/shared/STUN_protocol.py:44-61 | Encoding succeeds exactly for messages with a type, an id below 2^96 and a payload under 65536 characters |
| StunCodec.DecodeOfEncoded | UDP-Hole-Punching/shared/STUN_protocol.py:44-80 | Round trip: decoding what was encoded gives the same type, transaction id and payload, for every encodable message |
| StunCodec.EncodeOfDecoded | UDP-Hole-Punching/shared/STUN_protocol.py:63-80 | The other direction, exactly: re-encoding a decoded message gives the received bytes if and only if the two leading bits, the length and the cookie, which `decode` ignores, are what `encode` would write |
| StunCodec.DecodeMeaning | UDP-Hole-Punching/shared/STUN_protocol.py:63-80 | What `decode` makes of any bytes, short or foreign ones included: exactly when it succeeds, and type, id and payload in terms of the bytes; length field, cookie and leading bits play no part |
| StunCodec.WireLayout | UDP-Hole-Punching/shared/STUN_protocol.py:44-61 | The header is the 20 bytes of section 6 of RFC 5389: type, length, cookie 0x2112A442 and id as big-endian numbers of 2, 2, 4 and 12 bytes; the length counts characters, not bytes |
| StunCodec.TypeCodeOfBits | UDP-Hole-Punching/shared/STUN_protocol.py:8-12 | The four bit patterns are the type codes RFC 5389 gives the four classes with method 0 |
| StunCodec.TypeRoundTrip | UDP-Hole-Punching/shared/STUN_protocol.py:17-22 | `from_string` recovers each of the four types: no two patterns coincide |
| StunCodec.StunMessage.SetPayload | UDP-Hole-Punching/shared/STUN_protocol.py:40-42 | The length field follows the payload |
| StunCodec.StunMessage.EncodeBytes | UDP-Hole-Punching/shared/STUN_protocol.py:44-61 | The appending code produces the specified bytes and fails exactly where a field does not fit |
| StunCodec.StunMessage.DecodeBytes | UDP-Hole-Punching/shared/STUN_protocol.py:63-80 | Decoding returns a fresh message with the specified fields, or raises exactly for an unknown type or a payload that is not text |
| Addresses.AddressValidIff | UDP-Hole-Punching/shared/utils.py:9-19 | The check accepts exactly four numbers below 256 in dotted decimal with a port below 65536 |
| Addresses.ParseAddressIff | UDP-Hole-Punching/shared/STUN_protocol.py:82-84 | A payload is read as an address exactly when it is two texts without a colon joined by one, the second a number |
| Addresses.AddressRoundTrip | UDP-Hole-Punching/shared/STUN_protocol.py:82-84 | Splitting the text of a valid address at the colon gives that address back |
| Addresses.AddressTextDetermines | UDP-Hole-Punching/server/server.py:20-24 | Distinct valid addresses are distinct keys of the table |
| MatchTables.MatchTable.Add | UDP-Hole-Punching/server/server.py:20-24 | A registration writes both dictionaries, and only the entries of its id and its address |
| MatchTables.AddKeepsInverseIff | UDP-Hole-Punching/server/server.py:20-24 | A registration keeps the dictionaries inverse exactly when it repeats an entry or both its id and its address are new |
| MatchTables.LastRegistrationWins | UDP-Hole-Punching/server/server.py:20-38 | After any registrations each dictionary holds, for every key, the last registration of that key |
| MatchTables.OnlyRegistered | UDP-Hole-Punching/server/server.py:20-24 | The dictionaries never hold anything that was not registered |
| MatchTables.ConsistentRegistrations | UDP-Hole-Punching/server/server.py:20-38 | Without conflicting re-registration the dictionaries are inverse bijections, and `get_pinfo` and `get_pid` return exactly what was registered |
| MatchTables.UnknownIdIff | UDP-Hole-Punching/server/server.py:33-38 | `get_pinfo` finds nothing exactly for an id that was never registered |
| MatchTables.UnknownAddressIff | UDP-Hole-Punching/server/server.py:26-31 | `get_pid` finds nothing exactly for an address that was never registered |
| ServerRuns.LookupNeverRaises | UDP-Hole-Punching/server/server.py:33-38 | Stored addresses are always readable: the lookup fails only for an id that is not registered |
| StunServers.StunServer.Register | UDP-Hole-Punching/server/server.py:65-73 | Registers the payload as id of the sender exactly when the sender has an IPv4 address in dotted decimal and a port below 65536 |
| StunServers.StunServer.Request | UDP-Hole-Punching/server/server.py:75-103 | The pending request, the two pops and the comparison, in this order, including the exception of a destination without a pending request |
| StunServers.StunServer.Turn | UDP-Hole-Punching/server/server.py:124-147 | One datagram: new tables, replies and whether an exception ends the process |
| StunServers.StunServer.Run | UDP-Hole-Punching/server/server.py:120-149 | The server loop over any arrivals, up to the one that ends it |
| StunServers.PublicInfoTells | UDP-Hole-Punching/server/server.py:105-111 | The public address told to a peer determines that address: no two valid addresses give the same text |
| ServerRuns.ServeOneMore | UDP-Hole-Punching/server/server.py:120-149 | A run over one more datagram sends what it sent before and then the replies to that one, and a server that has ended sends nothing |
| ServerRuns.RequestEffect | UDP-Hole-Punching/server/server.py:87-103 | When an accepted request raises, is paired, or stays pending, and what is pending afterwards: a request stays pending after its own step only if its destination was unregistered |
| ServerRuns.MessageEffect | UDP-Hole-Punching/server/server.py:128-147 | Every decoded message registers one entry, changes the pending requests as one accepted request does, changes nothing, or ends the server |
| ServerRuns.AcceptedRequestOutcome | UDP-Hole-Punching/server/server.py:75-118 | An accepted request ends the server, is answered together with its counterpart, or is kept without an answer; each case exactly when |
| ServerRuns.ServerEndsIff | UDP-Hole-Punching/server/server.py:95-98 | At any point of any run, the next datagram ends the server if and only if it does not decode, or a registered peer asks for a registered one that is itself, has nothing pending, or wants it back while one of the two requests has no id |
| ServerRuns.AdvanceKeepsInv | UDP-Hole-Punching/server/server.py:65-103 | One arbitrary datagram keeps all of: closed tables, valid addresses, registered pending ids, the ledger of requests, settled pairs |
| ServerRuns.HistoryFollowsServer | UDP-Hole-Punching/server/server.py:120-149 | The history the run properties speak about is the server's own run |
| ServerRuns.TablesStayClosed | UDP-Hole-Punching/server/server.py:20-38 | In every run, re-registrations included, each dictionary refers into the other, every pending id is registered and exactly the registered ids have an address, which is valid |
| ServerRuns.TableIsRegistrations | UDP-Hole-Punching/server/server.py:20-38 | In every run the table is that of the registrations received, in order; without conflicting ones the dictionaries are inverse bijections and `get_pinfo` and `get_pid` return exactly what was registered |
| ServerRuns.TablesInverseThroughoutIff | UDP-Hole-Punching/server/server.py:20-24 | The dictionaries of a running server are inverse bijections all along its run if and only if no id and no address was registered in two ways |
| ServerRuns.PairedAtMostOnce | UDP-Hole-Punching/server/server.py:87-103 | In every run of arbitrary repeated or reordered datagrams, no unordered pair of peers is matched twice and no peer with itself |
| ServerRuns.PairsAreReplies | UDP-Hole-Punching/server/server.py:142-147 | The pairs so counted are the pairs answered on the wire: a datagram adds a pair exactly when it is a request that is replied to |
| ServerRuns.RequestsAccountedFor | UDP-Hole-Punching/server/server.py:87-103 | Every accepted request is pending, superseded by the same peer, matched or dropped on mismatch, and only one of these |
| ServerRuns.LedgerMeaning | UDP-Hole-Punching/server/server.py:87-103 | Where each request goes at each step: it replaces the pending one of its peer, and is answered or dropped together with that of its destination |
| ServerRuns.RunReplies | UDP-Hole-Punching/server/server.py:128-147 | At any point of any run, all that the next datagram makes the server send: one indication with the sender's address to a registration with an id, both success responses to a match, nothing else |
| ServerRuns.RunAnswersPairs | UDP-Hole-Punching/server/server.py:120-147 | Over the output of every run: its success responses, in order, are two for each pair matched, sent at the turn of its second request, each to its peer with its own transaction id and the other's address |
| ServerRuns.RepliesComeInPairs | UDP-Hole-Punching/server/server.py:142-147 | Success responses come in pairs, each with the recipient's own transaction id and the other peer's registered address |
| StunClients.StunClient.constructor | UDP-Hole-Punching/client/client.py:35-47 | A new client has no connection, no destination and no transactions |
| StunClients.StunClient.Start | UDP-Hole-Punching/client/client.py:96-105 | Both messages carry the ids drawn for them, which are remembered with their types before the client waits for the server |
| StunClients.StunClient.Receive | UDP-Hole-Punching/client/client.py:122-149 | A waiting client connects only on a success response to its own request, and to the address in it; StunClients.WaitingIff says what every other datagram does |
| StunClients.WaitingIff | UDP-Hole-Punching/client/client.py:128-146 | A waiting client stops exactly on a datagram that does not decode or an answer to its request that holds no address, connects exactly on an answer that holds one, to that one, and is unchanged by everything else, the server's indications included |
| StunClients.NotWaitingIff | UDP-Hole-Punching/client/client.py:122-149 | A connected client stops exactly on bytes that are not text; before it waits and after it stopped nothing changes it |
| Rendezvous.EstablishedIsMutual | UDP-Hole-Punching/client/client.py:128-138 | End to end, over a network that loses, duplicates, reorders and delays, with any number of clients: an established client's destination is the address of the client whose id it asked for, and that client had asked for it in return |
| Rendezvous.NextKeepsInv | UDP-Hole-Punching/server/server.py:120-149 | Every step of any client, the server or the network keeps the system invariant, crash of the server included |
| Rendezvous.ServerReceivesKeepsInv | UDP-Hole-Punching/server/server.py:124-147 | Whatever the server sends introduces two clients that asked for each other, or answers no request |
| Rendezvous.ClientReceivesKeepsInv | UDP-Hole-Punching/client/client.py:128-138 | Whatever a client receives, it is established only by such an introduction |
| Rendezvous.OnlyIntroductionsAnswer | UDP-Hole-Punching/client/client.py:133-138 | No datagram that ever travels, chat included, answers a client's request except its introduction |
| Rendezvous.ChatGoesToPeer | UDP-Hole-Punching/client/client.py:117-120 | In every run a client can type exactly when it is connected, any text that is no answer to a request, and what it types goes as typed from its own address to that of the one client it asked for, which asked for it |
| Rendezvous.OnlyFirstBytesCount | UDP-Hole-Punching/server/server.py:125 | A datagram of more than 2048 bytes does to the server what its first 2048 bytes would do alone |
| Rendezvous.OnlyFirstBytesHeard | UDP-Hole-Punching/client/client.py:126 | So it does to a client |
| Rendezvous.LongPayloadIsCut | UDP-Hole-Punching/server/server.py:125 | The receive buffer holds 2048 bytes: of a longer ASCII payload the first 2028 characters arrive |
| Meeting.MutualPeersCanConnect | UDP-Hole-Punching/server/server.py:75-147 | Two clients that want each other can always get connected, each to the other's address, from any reachable state in which the server runs and neither has started or is registered, through a state in which both receive the server's indication unharmed; the arrival of a further copy of the first one's request then ends the server |
| Meeting.OvertakingRequestEndsServer | UDP-Hole-Punching/server/server.py:96-98 | From any such state one is reached in which the destination is registered and its request still on the way, and there the arrival of the other one's request ends the server |
| DnsWire.UnpackOfPack | hw2/UDP/dns_query_resolver.c:62-76 | Packing then unpacking gives the flags back exactly when every field fits its bits |
| DnsWire.PackOfUnpack | hw2/UDP/dns_parser.c:110-119 | Unpacking then packing gives every flag word back, and the fields are in range |
| DnsWire.FlagLayout | hw2/UDP/dns_parser.c:110-119 | Where each flag stands in the two bytes of section 4.1.1 of RFC 1035 |
| DnsWire.HeaderLayout | hw2/UDP/dns_parser.c:34-54 | Which two bytes hold identifier, flags and each count, the high byte first |
| DnsWire.HeaderRoundTrip | hw2/UDP/dns_query_resolver.c:81-97 | The twelve header bytes of section 4.1.1 of RFC 1035 read back to the header written |
| DnsWire.BytesOfHeader | hw2/UDP/dns_parser.c:34-54 | Writing a header that was read gives the same twelve bytes |
| DnsWire.EncodeOfRead | hw2/UDP/dns_parser.c:132-168 | The labels read are exactly the bytes that stand there |
| DnsWire.ReadOfEncoded | hw2/UDP/dns_query_resolver.c:99-110 | A written name is read back, whatever stands before and after it |
| DnsParser.ExtractLabels | hw2/UDP/dns_parser.c:132-168 | The label loop with its 8-bit count and capacity and the doubling array: result, final offset, and when it leaves the buffer or the array |
| DnsParser.LabelLoopIff | hw2/UDP/dns_parser.c:132-168 | The loop succeeds exactly for a name that ends inside the buffer and has at most 160 labels, and advances by the encoded length |
| DnsParser.LabelFaultsIff | hw2/UDP/dns_parser.c:132-168 | The loop writes past its array exactly when more than 160 labels lie inside the buffer, and short of that reads past the buffer exactly when the name does not end inside it |
| DnsParser.QuestionLayout | hw2/UDP/dns_parser.c:70-72 | Type and class of a question are the two big-endian words behind its name |
| DnsParser.LegalNameParses | hw2/UDP/dns_parser.c:150-162 | For a name within 255 octets (section 2.3.4 of RFC 1035) the count stays exact at most at 127, every store is inside the array and the doubling never wraps |
| DnsParser.ExtractQuestions | hw2/UDP/dns_parser.c:57-73 | The question loop: all questions in order and the offset behind them, or the first failure |
| DnsParser.SkipSection | hw2/UDP/dns_parser.c:177-231 | The walk over a record section: the late bound check, the string-terminated name, the ten fixed bytes and the data length |
| DnsParser.ParseDnsMessage | hw2/UDP/dns_parser.c:31-89 | The whole parser over any buffer, with the place of every bound check and whether it leaves the buffer |
| DnsResolver.SetHeader | hw2/UDP/dns_query_resolver.c:151-194 | The response header and code, and whether the code already is an error |
| DnsResolver.JoinLabels | hw2/UDP/dns_query_resolver.c:199-204 | The appending loop yields the dotted name and outgrows its buffer exactly when that name has more than 255 bytes |
| DnsResolver.SearchRecord | hw2/UDP/dns_query_resolver.c:210-216 | The search loop returns what the first matching record is, or nothing |
| DnsResolver.ResolveQuery | hw2/UDP/dns_query_resolver.c:15-59 | The resolved response for any parsed query; DnsProperties.ReplyBytes says what it is |
| DnsResolver.WriteName | hw2/UDP/dns_query_resolver.c:99-110 | The label loop of the serializer writes the encoded name at the offset and nothing else |
| DnsResolver.Stringify | hw2/UDP/dns_query_resolver.c:79-148 | The serializer writes the message over the start of the buffer, leaves the rest alone and returns its length |
| DnsNames.DottedLength | hw2/UDP/dns_query_resolver.c:199-204 | The dotted name is two bytes shorter than the wire form exactly when no label holds a zero byte, and never longer |
| DnsNames.LegalNameFits | hw2/UDP/dns_query_resolver.c:199-204 | The dotted form of a name within 255 octets, the root included, fits the 256-byte buffer |
| DnsNames.PiecesOfJoin | hw2/UDP/dns_query_resolver.c:201-204 | Taking the dotted name apart at the byte 46 gives the labels back |
| DnsNames.CStringMeaning | hw2/UDP/dns_query_resolver.c:202 | Of a label with a zero byte the part before it enters the name |
| DnsNames.JoinInjective | hw2/UDP/dns_query_resolver.c:201-204 | Labels without dots and zero bytes are determined by their dotted name |
| DnsNames.MatchesByLabels | hw2/UDP/dns_query_resolver.c:210-216 | So looking up by dotted string is looking up by label list, both ways |
| DnsNames.MatchIsOwnNameIff | hw2/UDP/dns_query_resolver.c:201-216 | A query that matches a record kept under dotless labels asks for these very labels if and only if its own labels are free of dots and zero bytes; otherwise it gets the record of another name |
| DnsNames.FindsFirst | hw2/UDP/dns_query_resolver.c:210-223 | The record found is the first of the name, and none is found exactly when none has it |
| DnsServer.Serve | hw2/UDP/runner.c:84-121 | One turn of the server on any buffer: the reply is the first bytes of the server's buffer, or none, or the point where C has no meaning |
| DnsProperties.ReplyBytes | hw2/UDP/dns_query_resolver.c:15-59 | Every reply byte for byte, from the bytes of the query: identifier, flags with authority and without truncation or recursion offered, code, counts, question as received, and on success the pointer 0xC0 0x0C, type 1, class 1, ttl 0, length 4 and the address |
| DnsProperties.ReplyEchoesQuery | hw2/UDP/dns_query_resolver.c:20-58 | Identifier, opcode, recursion bit and question come back unchanged, every other flag as a response with authority has it; the length is header, name and 4, plus 16 exactly when the code is 0; `ancount` is the number of answers written |
| DnsProperties.CodeTable | hw2/UDP/dns_query_resolver.c:165-223 | The code of every reply, each value exactly when: 1 without a single question, 4 for another type, class or an inverse query, 3 when an otherwise valid query has no record, 0 otherwise |
| DnsProperties.CodeInBytes | hw2/UDP/dns_query_resolver.c:165-223 | The code of every reply in terms of the bytes of the query: count, type, class and opcode |
| DnsProperties.RepliesIff | hw2/UDP/runner.c:97-117 | When the server replies, exactly: a parsed query with a question, a dotted name of at most 255 bytes if it is looked up, a reply of at most 512 bytes; and it waits for the next query exactly when the parser rejects this one |
| DnsProperties.LegalQueryIsAnswered | hw2/UDP/runner.c:98-115 | A single-question query with a legal name and record sections inside the buffer is always answered, within 287 of the 512 bytes of section 4.2.1 of RFC 1035 |
| DnsReference.PlainNameAgrees | hw2/UDP/dns_parser.c:132-168 | Where the program reads a name, a decoder written from RFC 1035 reads the same labels up to the same place if and only if no label has more than 63 bytes |
| DnsReference.ResourceFields | hw2/UDP/dns_query_resolver.c:126-143 | Each field of any record written is read back where section 4.1.3 of RFC 1035 puts it |
| DnsReference.AnswerDecodes | hw2/UDP/dns_query_resolver.c:226-236 | A successful response decodes by RFC 1035 to one A record of class IN for exactly the labels asked, ttl 0, with the address bytes of the first matching record, and ends with it, if and only if no label asked has more than 63 bytes |
| DnsReference.AnswerIsFirstLine | hw2/UDP/dns_loader.c:39-74 | From the record file to the wire: some line has the name that was asked, and the address bytes of a successful response, decoded by RFC 1035, are those of the first such line, if and only if no label asked has more than 63 bytes |
| DnsRoundTrip.LongLabelIsAnswered | hw2/UDP/dns_parser.c:137-162 | The concrete input on which decoding fails: a query whose one label has 64 bytes is answered with code 0 from a record of that name |
| DnsRoundTrip.ParseOfSerialized | hw2/UDP/dns_parser.c:31-73 | Parsing what was serialized always returns identifier, flags and counts, and returns labels, type and class if and only if there are at most the 160 labels the label loop has room for; otherwise it runs out of the label array |
| DnsRoundTrip.MessageParses | hw2/UDP/dns_parser.c:31-89 | A message with any number of questions and of records in its three sections, as its header counts them, is parsed to its header and all its questions in order, whatever follows it |
| DnsRoundTrip.RejectedIff | hw2/UDP/dns_parser.c:31-89 | When the parser rejects a buffer, exactly: shorter than a header, than four bytes for each question, or than ten bytes for each record of the next section |
| DnsRoundTrip.SectionRejectedIff | hw2/UDP/dns_parser.c:76-85 | A section is rejected exactly when fewer bytes are left than ten for each record |
| DnsRoundTrip.SerializeOfParsed | hw2/UDP/dns_parser.c:31-73 | Serializing header and question of a parsed message returns its bytes |
| DnsRoundTrip.ErrorResponseParses | hw2/UDP/dns_query_resolver.c:120-123 | A response without an answer parses to exactly the message that was serialized, if and only if its question has at most 160 labels |
| DnsRoundTrip.SuccessfulResponseRejected | hw2/UDP/dns_parser.c:177-191 | The program's own parser rejects every successful response its server sends: it takes the pointer for a string |
| DnsLoader.LoadDnsServerData | hw2/UDP/dns_loader.c:35-74 | The growth loop: the table is the records of the lines in order, every store is below the capacity through every doubling, and the size is the record count |
| DnsLoader.WellFormedLine | hw2/UDP/dns_loader.c:91-104 | A line "address name" is split into exactly these two |
| DnsLoader.LineSplits | hw2/UDP/dns_loader.c:91-104 | Of a line of any spacing the first word is the address and the second, without its last byte, the name |
| DnsLoader.NameLosesByte | hw2/UDP/dns_loader.c:93-95 | A last line without a line end, or a blank before it, costs the name its last byte |
| DnsLoader.ShortLine | hw2/UDP/dns_loader.c:93-97 | A line with fewer than two words makes the program use a null pointer |
| DnsLoader.TableOfLines | hw2/UDP/dns_loader.c:39-72 | The table of well-formed lines is the entries in order, blank lines left out |
| DnsLoader.LookupIsFirstLine | hw2/UDP/dns_query_resolver.c:210-216 | Loading and looking up together: the address returned is that of the first line with the name |

## Left out

- Sockets, real threads, clocks, OpenMP, logging, tables printed for the log and the command lines: plumbing; the network is a collection of messages and a timeout is a step that may happen.
- The endless loops of the two sender threads are modelled as their steps, because another thread runs between any two of them; the test for an empty queue and the clearing of the event are one step, since only this thread takes from the queue.
- `ReliableChannelSender`, `ReliableChannelReceiver`: queue to socket forwarding without a property of its own.
- `GbnSender`, `GbnReceiver`, `PipelineSender`, `PipelineReceiver`: stubs with empty bodies.
- `hw3/tcp`, `hw1`, `hw4/main.c`: nothing printed and parsed again, or no logic.
- Errors raised by the sockets themselves, such as a datagram the system refuses to send.
- Random ids: transaction and client ids are parameters; that they are unique is stated where it is needed.
- The client's choice of default ids in its constructor (client.py:44-45), where the destination is random unless the client's own id is given: ids are parameters of the model.
- IPv6 literals in `is_address_valid`: an AF_INET socket reports IPv4 addresses only.
- Acknowledged.AcknowledgedIsDeliveredIff: leaves out payloads that fill the buffer so exactly that they fit with their place as number but not with the next one, which has a digit more; such a frame may be cut inside a character and end the receiver's thread, after which nothing more is acknowledged.
- Overlong.PrefixBreaksIff: does not model that sending a datagram of more than 65507 bytes raises and ends the sending thread; for a first improper payload that long no datagram is sent, so no run breaks the prefix there.
- DnsParser.SkipSection: does not model that shifting a first ttl byte of 128 or more by 24 bits overflows the C type int (dns_parser.c:185, 208, 225); the outcome marks only accesses outside the buffer.
- PyText.ParseInt: digits grouped by underscores, digits beyond ASCII, blanks beyond ASCII and the interpreter's limit on very long numerals are not modelled; no frame the sender makes has them.
- BitStrings.ParseBinary: blanks and digits beyond ASCII are not modelled; the programs only pass bits.
- The magic cookie and the length field are not checked on receipt, as in the code, which marks this as open; StunCodec.EncodeOfDecoded says what follows from it.
- Log lines that decode or format again what was already decoded.
- Rendezvous: programs other than the clients and the server that send to their addresses; `ServerRuns` covers arbitrary datagrams at the server.
- The contents of answer, authority and additional records in a query: the parser keeps pointers to them that the reply never uses, so only the walk over them is modelled.
- What C does after an access outside a buffer or array: the outcome says that it happens and nothing more.
- `inet_addr` is a parameter, the lines of the record file are given, memory allocation does not fail, and memory is never freed.
- DnsLoader.LoadDnsServerData: takes a table with room for at least one record; doubling nothing gives nothing, and the program starts with ten.
