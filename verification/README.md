# A verified model of wind's TUIC v5 UDP relay

`wind` is a proxy that carries TCP and UDP over QUIC with the TUIC v5 protocol. A UDP packet is
sent as one QUIC datagram if it fits, or cut into up to 255 fragments with a shared packet id; the
other side decodes the datagrams, finds the association, and puts packets together again in a
buffer from which a garbage collector may take entries at any time. This project models that path,
from the SOCKS5 socket that receives the application's datagrams to the channel that hands packets
back, and proves what holds over every run of it. Beside it are the copy loop of TCP relays, the
client's heartbeat, the server's authentication and the text form of addresses.

`dafny verify dfyconfig.toml` checks everything.

## How it is laid out

| file | what it holds |
|---|---|
| `Bytes.dfy` | machine integers, UTF-8, concatenation; `TargetAddr` and `UdpPacket` |
| `Codec.dfy` | header, command, address and whole datagrams as functions on bytes |
| `Streaming.dfy` | laws of incremental decoding, for any decoder that keeps three promises |
| `WireBuffer.dfy` | the codecs as they run, in place on a byte buffer |
| `Fragmentation.dfy` | overheads, capacities, fragment count, slices, the sending decision |
| `Sender.dfy` | packet ids and datagrams over any sequence of sends |
| `Reassembly.dfy` | the reassembly buffer as a value, and every run of it |
| `Assembly.dfy` | what the fragments under one key make, however badly formed |
| `ReassemblyBuffer.dfy` | the buffer as objects, with the garbage collector interfering |
| `EndToEnd.dfy` | the receiving loop, an ideal machine, and the refinement between them |
| `Delivery.dfy` | conservation of packets end to end |
| `Receiving.dfy` | the receiving loop with the collector at work, on values |
| `RoundTrip.dfy` | one packet in any order of arrival; overlapping packets with one id |
| `IdWindow.dfy` | how many packet ids are safe |
| `UdpStream.dfy` | `UdpStream` and the client's receiving loop as objects |
| `SocksUdp.dfy`, `Gro.dfy` | the SOCKS5 UDP socket, and cutting up coalesced buffers |
| `Pipeline.dfy` | a datagram all the way from the SOCKS5 socket to the receive channel |
| `CopyIo.dfy`, `Heartbeat.dfy`, `Inbound.dfy`, `AddrText.dfy` | the copy loop, the heartbeat, authentication, address text |

The main results are `Delivery.EndToEndDelivery`, `Delivery.HandedOverIsReceived`,
`EndToEnd.Refinement`, `IdWindow.SafeAtIff`, `RoundTrip.PacketRoundTrip`,
`ReassemblyBuffer.FragmentReassemblyBuffer.AddFragment`, `Reassembly.NonInterference`,
`Reassembly.Provenance`, `Assembly.CompletedAmongOthers`, `UdpStreams.TuicOutbound.ReceiveSent`,
`Fragmentation.SendsEverythingIff`, `Streaming.ChunkingIrrelevant`,
`SocksUdp.Socks5UdpSocket.Compact`, `Gro.ConformsIff`, `Inbound.EventDone` and
`AddrText.TextRoundTripIff`.

## How the code is modelled

- A datagram limit `d` is whatever the connection reports during one send, at most 65535 because a
  QUIC datagram travels in a UDP packet. Different sends may see different limits.
- `send_packet` subtracts the header overhead from the limit without a check. The model follows a
  release build on a 64-bit machine, where the subtraction wraps round.
- The caches are maps. The outer one may lose any entries between any two steps. The inner one has
  room for `frag_total` entries and sheds a choice of its own (`shed`) only when it holds more.
- Asking a buffer for more bytes than it has is a panic (`Overrun`, `Panicked`), not an error.
- Whatever the surroundings decide is an input, and the theorems are for every such input: which
  datagrams the connection takes (`Verdict`), what the collector takes at each step of `add_fragment`
  (`Collection`), what an overfull cache sheds, when a channel closes (`capacity`, `room`), which writes
  fail and after how many bytes (`Fate`), the order of reads, of network events and of clock readings.
- What an association's channel is offered after it is closed is lost; the theorems on values speak of
  what it was offered.
- The exporter of the TLS session, lossy UTF-8 conversion and the text form of IPv6 addresses are
  function parameters. The last comes with the laws it is used under (`AddrText.Lawful`).
- A Rust `String` is its bytes together with their UTF-8 well-formedness.

## Where the code does not do what one would expect

Each of these is a theorem below, with the condition under which the expectation does hold.

- A datagram limit too small for the first header makes `send_packet` send the packet whole, in a
  datagram above the limit (`WithinLimitIff`). The specification asks for saturating arithmetic.
- When packet ids come round while fragments of an older packet with the same id are waiting, the
  receiver can deliver a mixture (`ReusedIdMixes`). Up to 65536 packets on an association this cannot
  happen, from 65537 on it can, at every datagram limit from 14 bytes up (`SafeAtIff`); in longer runs it
  does not happen as long as packets that share an id keep apart, which `Separate` states
  (`EndToEndDelivery`).
- A fragment whose index is not below the announced total is stored and counted. When as many indices
  have arrived as were announced, the packet comes out exactly if none is out of range; otherwise
  everything that arrived for it is lost (`CompletedAmongOthers`).
- A request to a domain loses its destination on the way from the SOCKS5 socket to the tunnel, and
  goes to the sender's own address (`DestinationKeptIff`).
- If the kernel coalesces several SOCKS5 requests into one buffer, only the first header is stripped:
  the payloads come out exactly if there is one request (`CoalescedHeaderLeaks`), that is, if the
  buffer is no longer than a stride (`ConformsIff`).
- A SOCKS5 request with a fragment number other than 0 is relayed, although section 7 of RFC 1928 asks
  to drop it. A buffer is relayed as the RFC asks exactly if it is no longer than a stride, its request
  has fragment number 0 and names an IP address (`ConformsIff`).
- An empty datagram ends the task that reads from the SOCKS5 socket: what it hands on is the packets
  before the first empty datagram, as far as the channel takes them (`ReadTask`), so it reaches the last
  datagram only if none before it is empty (`Live`).
- The predicate of `cleanup_expired` reads the clock before the timestamp. Its subtraction underflows
  exactly if a fragment arrives in between, in a later second (`ExpirySound`).
- A domain that contains a colon, starts with a bracket or looks like an IPv4 address does not survive
  printing and reading (`TextRoundTripIff`).
- `decode_eof` fails even when the input ends between two items. A stream of whole items in any chunks
  always ends in `BytesRemaining` (`CleanEndFails`), for headers, addresses and exactly those commands
  that are known and have a body (`EmptyInputWaits`).
- The decoder does not enforce the specification's rule that a domain has at least one byte
  (`EmptyDomainAccepted`). An accepted address keeps it exactly if it is not a domain with length
  byte 0 (`LengthRuleIff`).

## Model

| member | source | states |
|---|---|---|
| Codec.HeaderRoundTrip | crates/wind-tuic/src/proto/header.rs:41-72 | a header followed by anything decodes to itself and leaves exactly the rest, if and only if its version is 5 and its command known |
| Codec.HeaderReencode | crates/wind-tuic/src/proto/header.rs:41-72 | re-encoding an accepted header gives back exactly the bytes consumed |
| Codec.HeaderLayout | crates/wind-tuic/src/proto/header.rs:18-53 | the five headers are 05 00 to 05 04 in the order of the specification, written and read |
| Codec.HeaderRefused | crates/wind-tuic/src/proto/header.rs:41-53 | a wrong version is refused with one byte consumed, an unknown command with two |
| Codec.CommandRoundTrip | crates/wind-tuic/src/proto/cmd.rs:37-117 | a command decodes to itself under its own type, whatever follows, and under no other type |
| Codec.CommandReencode | crates/wind-tuic/src/proto/cmd.rs:37-117 | an accepted command has the type asked for and re-encodes to the bytes consumed |
| Codec.CommandLayout | crates/wind-tuic/src/proto/cmd.rs:88-117 | the body of every command byte by byte: a user id before the token, numbers in network order, nothing for Connect and Heartbeat |
| Codec.AddressRoundTrip | crates/wind-tuic/src/proto/addr.rs:74-188 | every address with a domain of at most 255 bytes decodes to itself and leaves exactly the rest |
| Codec.AddressReencode | crates/wind-tuic/src/proto/addr.rs:74-188 | an accepted address is encodable and re-encodes to the bytes consumed |
| Codec.UnknownAddressRefused | crates/wind-tuic/src/proto/addr.rs:80-83 | every other address type is refused with nothing consumed |
| Codec.BadNameRefused | crates/wind-tuic/src/proto/addr.rs:125-132 | a name that is not UTF-8 is refused with its type and length byte gone |
| Codec.LengthRuleIff | crates/wind-tuic/src/proto/addr.rs:74-139 | an accepted address has a domain of 1 to 255 bytes exactly if it is not a domain with length byte 0 |
| Codec.EmptyDomainAccepted | crates/wind-tuic/src/proto/addr.rs:74-139 | a domain of no bytes is accepted, with any port and anything after it |
| Codec.DatagramLayout | crates/wind-tuic/src/proto/cmd.rs:96-109 | every field of a packet datagram stands at the offset and in the byte order of the specification |
| Codec.AddressLayout | crates/wind-tuic/src/proto/addr.rs:153-188 | every address form has the type byte, length and byte order of the specification |
| Codec.SpecificationExamples | crates/wind-tuic/src/proto/cmd.rs:88-117 | the encoders write the bytes of the examples in appendix A of the TUIC specification |
| Codec.DatagramRoundTrip | crates/wind-tuic/src/proto/mod.rs:132-161 | the receiver's three decoders read a datagram back to the sender's fields, with the payload as far as the size field reaches |
| Codec.DatagramFollowed | crates/wind-tuic/src/outbound.rs:152-189 | the same with anything after the payload |
| Codec.OtherParsed | crates/wind-tuic/src/outbound.rs:152-189 | a message other than a packet is recognised as what it is, whatever follows |
| Codec.OverrunIff | crates/wind-tuic/src/outbound.rs:152-189 | reading a datagram panics exactly if it is a packet with fewer bytes than its size field says |
| Codec.MalformedIff | crates/wind-tuic/src/outbound.rs:152-189 | a datagram is malformed exactly if it is no packet, not short of one and no other message |
| Codec.SizeSurvivesIff | crates/wind-tuic/src/proto/mod.rs:148 | the sixteen-bit size field cuts nothing off exactly for chunks below 65536 bytes |
| Codec.ParseSound | crates/wind-tuic/src/outbound.rs:152-189 | whatever the receiver accepts is the encoding of what it read, followed by bytes it ignores |
| Streaming.StrictPrefixNeedsMore | crates/wind-tuic/src/proto/addr.rs:74-146 | every strict prefix of an encoding asks for more, leaves the buffer alone, and is BytesRemaining at end of file |
| Streaming.ChunkingIrrelevant | crates/wind-tuic/src/proto/addr.rs:74-139 | cutting any byte stream, valid or not, into chunks differently changes neither items nor error nor remainder |
| Streaming.StreamRoundTrip | crates/wind-tuic/src/proto/addr.rs:206-278 | any list of items and a partial one, in any chunks, are read back as exactly that list and that partial remainder |
| Streaming.CleanEndFails | crates/wind-tuic/src/proto/addr.rs:141-146 | a list of whole items in any chunks is read in full and then ends in BytesRemaining with no byte left |
| Streaming.EmptyInputWaits | crates/wind-tuic/src/proto/cmd.rs:76-81 | the end of input is an unfinished item for headers, addresses and exactly the known commands that have a body |
| Streaming.HeaderIncremental | crates/wind-tuic/src/proto/header.rs:41-60 | header verdicts are stable under more bytes, waiting consumes nothing, items consume something |
| Streaming.CommandIncremental | crates/wind-tuic/src/proto/cmd.rs:37-81 | the same for commands, exactly for those that have a body |
| Streaming.AddressIncremental | crates/wind-tuic/src/proto/addr.rs:74-146 | the same for addresses, malformed ones included |
| Streaming.AddressStream | crates/wind-tuic/src/proto/addr.rs:206-278 | a list of addresses written in any chunks is read back as that list |
| WireBuffer.ReadHeader | crates/wind-tuic/src/proto/header.rs:41-53 | the in-place decoder returns and consumes what the function says, on errors too |
| WireBuffer.ReadCommand | crates/wind-tuic/src/proto/cmd.rs:37-74 | the in-place decoder returns and consumes what the function says |
| WireBuffer.ReadAddress | crates/wind-tuic/src/proto/addr.rs:74-139 | the in-place decoder returns and consumes what the function says, including the two bytes lost on bad UTF-8 |
| WireBuffer.ReadDatagram | crates/wind-tuic/src/outbound.rs:152-189 | decoding a datagram step by step on a buffer is `Parse` |
| WireBuffer.WriteHeader | crates/wind-tuic/src/proto/header.rs:67-72 | appends exactly the header's encoding |
| WireBuffer.WriteCommand | crates/wind-tuic/src/proto/cmd.rs:88-117 | appends exactly the command's encoding |
| WireBuffer.WriteAddress | crates/wind-tuic/src/proto/addr.rs:153-188 | appends the encoding, or reports a domain too long and writes nothing, exactly above 255 bytes |
| WireBuffer.WriteDatagram | crates/wind-tuic/src/proto/mod.rs:140-155 | one datagram built in a fresh buffer has the layout of `Datagram` |
| Fragmentation.DatagramLength | crates/wind-tuic/src/proto/udp_stream.rs:189-205 | the overhead the sender reckons with is the length the three encoders write |
| Fragmentation.CountIsOptimal | crates/wind-tuic/src/proto/udp_stream.rs:249-258 | no way of cutting the payload under the same two capacities takes fewer fragments |
| Fragmentation.SlicesExact | crates/wind-tuic/src/proto/udp_stream.rs:269-329 | the slices put together are the payload |
| Fragmentation.SliceSizes | crates/wind-tuic/src/proto/udp_stream.rs:269-284 | no slice exceeds its capacity, all but the last are full, and later ones are not empty |
| Fragmentation.PlanExact | crates/wind-tuic/src/proto/udp_stream.rs:186-332 | whichever way a packet is sent, its pieces are its payload |
| Fragmentation.AcceptedIff | crates/wind-tuic/src/proto/udp_stream.rs:249-263 | a packet is accepted exactly up to (D - overhead) + 254 (D - 11) bytes |
| Fragmentation.FragmentLengths | crates/wind-tuic/src/proto/udp_stream.rs:269-325 | every datagram is at most D bytes, and of several all but the last exactly D |
| Fragmentation.WithinLimitIff | crates/wind-tuic/src/proto/udp_stream.rs:203-220 | the datagrams keep within D exactly when D has room for the first header |
| Fragmentation.SendsEverythingIff | crates/wind-tuic/src/proto/udp_stream.rs:240-263 | every UDP payload goes to every destination if and only if D is at least 270 |
| Sender.IdsFresh | crates/wind-tuic/src/proto/udp_stream.rs:205-267 | over any run of single, fragmented, refused and failed sends the k-th packet sent has the k-th id modulo 65536, so two share an id exactly when a multiple of 65536 apart |
| Sender.TakeoffIff | crates/wind-tuic/src/proto/udp_stream.rs:186-263 | a packet is given an id exactly if its domain has at most 255 bytes, its payload fits 255 fragments or the limit is too small for the header, and, when it is one datagram, the connection takes it |
| Sender.TakeoffIs | crates/wind-tuic/src/proto/udp_stream.rs:205-332 | then its pieces are its payload, one if it fits and otherwise no more than needed, and as many go out as the connection takes |
| Sender.AcceptedSnoc | crates/wind-tuic/src/outbound.rs:315-331 | one more packet is accepted exactly under that condition, and comes after those before |
| Sender.AcceptedIsHandedOver | crates/wind-tuic/src/outbound.rs:315-331 | a run accepts exactly the packets handed over, in order, if and only if every one of them meets the condition |
| Sender.SendRunSnoc | crates/wind-tuic/src/proto/udp_stream.rs:205-267 | one more send continues a run from the counter where it stands, and takes an id exactly if it takes off |
| Sender.LaunchesCarryPackets | crates/wind-tuic/src/proto/udp_stream.rs:186-332 | over any run of sends the pieces sent are, in order, the packets accepted |
| Sender.LaunchesWellMade | crates/wind-tuic/src/proto/udp_stream.rs:259-325 | over any run every packet sent has 1 to 255 pieces, each of a length the size field can carry |
| UdpStreams.UdpStream.SendPacket | crates/wind-tuic/src/proto/udp_stream.rs:186-224 | what the connection gets, the new counter and the result are those of the plan with as many datagrams as the connection takes in a row; a size that does not go through changes nothing; a packet that fits is one datagram, and uses its id exactly if that is taken; a fragmented one always uses its id |
| UdpStreams.UdpStream.SendFragmentedPacket | crates/wind-tuic/src/proto/udp_stream.rs:226-332 | of the closed-form datagrams exactly those before the first refused one go out, success is all of them, and one id is used unless there are too many |
| UdpStreams.UdpStream.SendQueue | crates/wind-tuic/src/outbound.rs:315-331 | the sending task puts on the wire exactly the run of sends the end-to-end theorem starts from, each as the connection's verdicts make it go |
| UdpStreams.WillingTakesAll | crates/wind-tuic/src/outbound.rs:315-331 | on a connection that takes every datagram the queue is accepted whole and in order if and only if every size goes through |
| Reassembly.CountIsIndexTest | crates/wind-tuic/src/proto/udp_stream.rs:118-121 | with indices in range, the entry count equals the total exactly when every index is present |
| Reassembly.CountTestExact | crates/wind-tuic/src/proto/udp_stream.rs:112-158 | on well-formed traffic the count test is the index test, so neither branch for a missing fragment is reachable |
| Reassembly.WellFormedRunsTidy | crates/wind-tuic/src/proto/udp_stream.rs:70-172 | over every well-formed run no complete entry is left in the buffer |
| Reassembly.NonInterference | crates/wind-tuic/src/proto/udp_stream.rs:79-125 | for any trace, the state and the outputs of one key are those of running that key's events alone |
| Reassembly.Provenance | crates/wind-tuic/src/proto/udp_stream.rs:70-172 | for any trace, ill-formed fragments and evictions included, every output is fragments of its own key in index order, with a total, destination and source that came with that key |
| Assembly.Collecting | crates/wind-tuic/src/proto/udp_stream.rs:79-125 | while fewer indices have arrived than the first fragment announced, nothing comes out and the entry holds the first total and source, the latest content of each index, and the destination of the last fragment 0 with a real address |
| Assembly.Completed | crates/wind-tuic/src/proto/udp_stream.rs:79-172 | with the last index announced the entry is gone, and a packet of that content and destination comes out exactly if no index was out of range |
| Assembly.CompletedAmongOthers | crates/wind-tuic/src/proto/udp_stream.rs:79-172 | the same in any trace in which the key is not evicted, whatever else arrives in between |
| Reassembly.ExpirySound | crates/wind-tuic/src/proto/udp_stream.rs:93-133 | in every reachable state, with the clock read at one instant and the timestamp at a later one, the age underflows exactly if the last fragment came in a later second; otherwise an entry is expired exactly from 30 s after the second of its last fragment, so surely after 30 s and never within 29 s |
| ReassemblyBuffer.FragmentReassemblyBuffer.AddFragment | crates/wind-tuic/src/proto/udp_stream.rs:70-125 | whatever the collector takes between any two steps, the call does exactly what one atomic addition does between evictions of what was taken |
| ReassemblyBuffer.NothingCollected | crates/wind-tuic/src/proto/udp_stream.rs:70-125 | if the collector takes nothing that is the addition and nothing else |
| ReassemblyBuffer.CollectedIsGone | crates/wind-tuic/src/proto/udp_stream.rs:70-125 | of the other entries exactly those go that the collector takes; the call's own entry is gone if it is taken after it was found, and nothing comes out if that is before the count |
| ReassemblyBuffer.FragmentReassemblyBuffer.ReassemblePacket | crates/wind-tuic/src/proto/udp_stream.rs:136-172 | takes the entry out and returns its fragments in index order, or nothing when one is missing or the entry is gone |
| ReassemblyBuffer.FragmentReassemblyBuffer.AddAll | crates/wind-tuic/src/proto/udp_stream.rs:70-172 | any calls on a new buffer, whatever is collected, are the run of these additions with evictions of what was collected, so every packet returned is fragments of its own key from these calls, in index order |
| ReassemblyBuffer.FragmentReassemblyBuffer.CleanupExpired | crates/wind-tuic/src/proto/udp_stream.rs:128-133 | if the cache accepts the predicate, removes exactly the expired entries, or panics exactly if a timestamp is ahead of the clock; otherwise removes nothing |
| EndToEnd.ReceiveWire | crates/wind-tuic/src/outbound.rs:152-232 | the receiver sees in each datagram exactly the fragment the sender meant, and packets of one piece bypass the buffer |
| EndToEnd.AddPiece | crates/wind-tuic/src/proto/udp_stream.rs:79-172 | one more piece, in any order, new or repeated: the packet comes out and the entry goes exactly on the last missing piece, with the destination of piece 0 whenever that arrived |
| EndToEnd.Refinement | crates/wind-tuic/src/outbound.rs:147-239 | over every legal run the association does what an ideal machine does that only tracks which pieces are held, whatever else arrives, and the task does not panic |
| Delivery.ArrivedIsDone | crates/wind-tuic/src/proto/udp_stream.rs:70-172 | a packet all of whose datagrams arrive, and whose entry is not dropped once one of them has, is delivered |
| Delivery.FinishedIsNotHeld | crates/wind-tuic/src/proto/udp_stream.rs:79-133 | nothing is waiting of a launch that arrived in full and was spared, or whose entry was dropped after its last arrival |
| Delivery.OnceIsLegal | crates/wind-tuic/src/proto/udp_stream.rs:79-125 | if no datagram arrives twice and launches that share an id keep apart, every order of arrival is legal |
| Delivery.LegalDelivery | crates/wind-tuic/src/outbound.rs:147-239 | over every legal run the packets delivered are a sub-multiset of those sent, and equal to them if everything arrives and nothing is dropped |
| Delivery.EndToEndDelivery | crates/wind-tuic/src/proto/udp_stream.rs:186-332 | for any sends that use at most 65536 ids, or any number if packets with one id keep apart, and any delivery of their datagrams, at most once each, with losses, drops and other traffic: the packets received are a sub-multiset of those accepted, and all of them if nothing is lost or dropped |
| Delivery.HandedOverIsReceived | crates/wind-tuic/src/proto/udp_stream.rs:186-332 | if besides every packet meets the condition for being accepted, the packets received are exactly those the application handed over |
| RoundTrip.DispatchLocal | crates/wind-tuic/src/outbound.rs:212-235 | a datagram changes no association but the one it names |
| RoundTrip.SingleDispatched | crates/wind-tuic/src/outbound.rs:189-232 | a packet announced as at most one piece is delivered as it is, to its address or to 0.0.0.0:0, whatever bytes follow |
| RoundTrip.FragmentDispatched | crates/wind-tuic/src/outbound.rs:189-232 | any other goes into the buffer of its association with its own fields, and what comes out is delivered |
| RoundTrip.OthersIgnored | crates/wind-tuic/src/outbound.rs:152-239 | anything that is no packet changes nothing, and the loop dies exactly on a packet short of its size field |
| RoundTrip.UnknownIgnored | crates/wind-tuic/src/outbound.rs:212-235 | a packet of an association that is not open changes nothing |
| RoundTrip.DispatchOwnKeys | crates/wind-tuic/src/outbound.rs:189-218 | for any datagrams, streams hold only keys of their own association, and the loop dies exactly at a datagram whose size field overruns it |
| RoundTrip.PacketRoundTrip | crates/wind-tuic/src/proto/udp_stream.rs:70-172 | the datagrams of a packet in any order with repetitions deliver nothing until the last missing one, then the packet once, and leave the buffer as it was |
| RoundTrip.SendReceive | crates/wind-tuic/src/proto/udp_stream.rs:186-332 | the same for a packet as handed to `send_packet`: its own destination, the placeholder address included, and its own payload come out |
| RoundTrip.ReusedIdMixes | crates/wind-tuic/src/proto/udp_stream.rs:86-105 | when two packets with one id overlap, the receiver delivers the first pieces of one with the rest of the other |
| RoundTrip.MixtureIsNew | crates/wind-tuic/src/proto/udp_stream.rs:86-105 | and that is neither of the two if their beginnings, of one length, and their ends differ |
| IdWindow.SafeAtIff | crates/wind-tuic/src/proto/udp_stream.rs:86-105 | with the datagram limit at d, no run with n packet ids in use can deliver anything but what was sent if and only if n is at most 65536, or d is below 14 and no packet is ever cut |
| IdWindow.SafeForIff | crates/wind-tuic/src/proto/udp_stream.rs:86-105 | the same whatever the limits, if and only if n is at most 65536 |
| IdWindow.OverlapMixes | crates/wind-tuic/src/proto/udp_stream.rs:86-105 | two pieces of the first packet and one of the packet 65536 later, at any limit that cuts: the receiver delivers their mixture |
| Receiving.ArrivalBetween | crates/wind-tuic/src/outbound.rs:147-239 | handling a datagram while the collector is at work is a step of the receiving loop between evictions of what it takes |
| Receiving.ArrivalsRun | crates/wind-tuic/src/outbound.rs:147-239 | handling datagrams one after the other is a run of the network in which just they arrive, with those evictions, and does not panic |
| Receiving.SparedIsUndropped | crates/wind-tuic/src/proto/udp_stream.rs:70-133 | a packet whose key the collector does not take once a piece of it has arrived is not dropped in that run |
| Receiving.ApartIsSeparate | crates/wind-tuic/src/proto/udp_stream.rs:86-105 | packets with one id that do not overlap on arrival keep apart in that run |
| Receiving.OfferedSent | crates/wind-tuic/src/outbound.rs:147-239 | what was sent, what arrived and what the collector took decide that an association is offered a sub-multiset of the packets accepted for sending, and all of them if everything arrives and is spared |
| UdpStreams.UdpStream.ReceivePacket | crates/wind-tuic/src/proto/udp_stream.rs:362-369 | the packet goes into the channel exactly while it is open, and is lost afterwards |
| UdpStreams.UdpStream.Dispatch | crates/wind-tuic/src/outbound.rs:213-232 | in place, and whatever the collector takes, dispatching does what the loop on values does with the fragment |
| UdpStreams.TuicOutbound.HandleDatagram | crates/wind-tuic/src/outbound.rs:147-239 | in place, the datagram branch does what the loop on values does, changes no other association, and panics exactly on an overrun |
| UdpStreams.TuicOutbound.ReceiveFrom | crates/wind-tuic/src/outbound.rs:147-239 | whatever every step of the receiving loop on values keeps, a panic included, holds of the objects after any datagrams |
| UdpStreams.TuicOutbound.ReceiveAll | crates/wind-tuic/src/outbound.rs:147-239 | after any datagrams the objects are exactly where the loop on values is, and the task has panicked exactly if that has |
| UdpStreams.TuicOutbound.ReceiveSent | crates/wind-tuic/src/outbound.rs:147-239 | end to end on the objects: the channel holds a sub-multiset of the packets accepted for sending, and all of them if every datagram arrives, the collector spares them and the channel has room; these are all that were handed over if each meets the condition for being accepted |
| UdpStreams.TuicOutbound.OpenAssociation | crates/wind-tuic/src/outbound.rs:270-287 | a new association gets the next id modulo 65536 and an empty stream, and the others are as before |
| SocksUdp.ParserIsExact | crates/wind-socks/src/udp.rs:54-118 | the parser accepts exactly the byte strings laid out as RFC 1928 section 7 says |
| SocksUdp.RequestLayout | crates/wind-socks/src/udp.rs:54-118 | the layout meant: two zero bytes, FRAG, 1, 3 or 4 for the kind of address, the address, the port in network order, the payload |
| SocksUdp.ParseLayout | crates/wind-socks/src/udp.rs:70-117 | a request of each kind, written out in bytes, is read to its fields; no other kind is read at all |
| SocksUdp.ParseEncoded | crates/wind-socks/src/udp.rs:54-118 | every request is read back with its fragment number, address and payload |
| SocksUdp.EncodeParsed | crates/wind-socks/src/udp.rs:54-118 | what was read, laid out again, is the datagram |
| SocksUdp.ParseUdpRequest | crates/wind-socks/src/udp.rs:54-118 | moving an offset through the packet computes the parser, with no index out of range |
| SocksUdp.StripIs | crates/wind-socks/src/udp.rs:189-211 | a request loses its header and gets its destination, anything else is passed on as it is; the sender and the stride go through |
| SocksUdp.StripAllAppend | crates/wind-socks/src/udp.rs:179-213 | datagrams are handled one after the other, each giving one unless it is empty |
| SocksUdp.LastSourceIs | crates/wind-socks/src/udp.rs:185-186 | the sender recorded is that of the last datagram that is not empty, or the one from before |
| SocksUdp.Socks5UdpSocket.Compact | crates/wind-socks/src/udp.rs:179-214 | compaction leaves in the first buffers exactly the stripped non-empty datagrams in order, touches nothing else, and ends with the last non-empty datagram's sender |
| SocksUdp.Socks5UdpSocket.PollRecv | crates/wind-socks/src/udp.rs:155-214 | with buffers no larger than earlier ones, in particular all equal, every datagram arrives whole; one datagram is reported as one exactly if it is not empty |
| Gro.SegmentsAreChops | crates/wind-tuic/src/outbound.rs:394-403 | the computed segment boundaries cut as repeatedly taking a stride off the front does |
| Gro.SegmentsPartition | crates/wind-tuic/src/outbound.rs:394-420 | segments concatenate to the buffer, all but the last are one stride, the last is 1 to stride, and there is exactly one unless the buffer is longer than a stride |
| Gro.ForwardBuffer | crates/wind-tuic/src/outbound.rs:385-435 | the segments are forwarded in order, exactly as many as the channel takes before it is closed |
| Gro.DestinationKeptIff | crates/wind-tuic/src/outbound.rs:372-388 | a destination survives exactly when it is an IP address |
| Gro.ForwardTargetIs | crates/wind-tuic/src/outbound.rs:372-388 | without a destination, or with a domain, the packet goes to the sender |
| Gro.ForwardedIs | crates/wind-tuic/src/outbound.rs:385-435 | every segment becomes a packet with that destination and no source, and together they are the buffer |
| Gro.RequestForwarded | crates/wind-tuic/src/outbound.rs:372-435 | a SOCKS5 request of at most one stride becomes one packet with its payload and, for an IP address, its destination |
| Gro.CoalescedHeaderLeaks | crates/wind-socks/src/udp.rs:182-200 | of any number of requests in one buffer only the first header is stripped, and what is forwarded is their payloads if and only if there is one of them |
| Gro.ConformsIff | crates/wind-tuic/src/outbound.rs:372-435 | a coalesced buffer comes out as its payloads one by one if and only if it is no longer than a stride, and as RFC 1928 asks if and only if besides the fragment number is 0 and the target an IP address |
| Gro.ReadTask | crates/wind-tuic/src/outbound.rs:342-437 | the reading task hands on the packets before the first empty datagram, exactly as many as the channel takes before it is closed |
| Pipeline.RequestDelivered | crates/wind-tuic/src/outbound.rs:372-435 | a SOCKS5 request to an IP address, alone in its buffer, comes out at the other end with its destination and payload, whole or in fragments, in any order of arrival |
| CopyIo.Copy | crates/wind-core/src/io.rs:5-58 | for every interleaving and every way writes may fail, it ends exactly at the first end of file, failing read or failing write; it reports the error of that read or write, and none at end of file; it counts the bytes read, and each side has got what its successful writes carried |
| CopyIo.OnlyFailingWritesLose | crates/wind-core/src/io.rs:19-56 | each side gets a prefix of what was read from the other, all of it exactly unless the last turn was a failing write in that direction |
| CopyIo.BytesAppend | crates/wind-core/src/io.rs:19-56 | what is read in a run of turns is what is read in its parts, in order |
| CopyIo.BytesOfTurn | crates/wind-core/src/io.rs:20-54 | a turn with data gives its bytes to its own direction and nothing to the other |
| Heartbeat.TrailingIsThree | crates/wind-tuic/src/outbound.rs:132-142 | the failure counter reaches three exactly when the last three heartbeats failed |
| Heartbeat.ThreeInARowIff | crates/wind-tuic/src/outbound.rs:122-143 | the last three heartbeats failed exactly if three turns were failing heartbeats with no other heartbeat between or after them |
| Heartbeat.Poll | crates/wind-tuic/src/outbound.rs:122-143 | the task fails exactly at the third failing heartbeat with no successful one in between, whatever traffic comes between, and stops when cancelled |
| Inbound.InboundCtx.HandleAuth | crates/wind-tuic/src/inbound.rs:510-533 | succeeds exactly for a known user with the exported token, and changes nothing otherwise |
| Inbound.InboundCtx.HandleBiStream | crates/wind-tuic/src/inbound.rs:414-467 | relays exactly when authenticated and the stream is a well-formed Connect with a real address |
| Inbound.InboundCtx.HandleDatagram | crates/wind-tuic/src/inbound.rs:470-507 | handles exactly the packets with a real address, when authenticated, and panics exactly on an overrun |
| Inbound.InboundCtx.HandleUniStream | crates/wind-tuic/src/inbound.rs:369-411 | refuses streams above 65536 bytes, logs in exactly on a rightful Auth, records exactly dissociations and packets with a real address, and panics exactly on an overrun |
| Inbound.InboundCtx.Serve | crates/wind-tuic/src/inbound.rs:303-363 | the connection is exactly where its events lead, until it is closed or a handler panics, and no further; it is closed exactly if the timeout comes before a rightful login; TCP relays and datagram packets come after a known user's right token; a connection closed by the timeout has relayed nothing |
| Inbound.AskedIsDone | crates/wind-tuic/src/inbound.rs:369-533 | a message laid out as the specification says, whatever follows it, is carried out exactly if it is granted: a login to a known user with the right token, relaying after a login, the rest to anyone |
| Inbound.DoneWasAsked | crates/wind-tuic/src/inbound.rs:369-533 | and nothing is done that no message asked for |
| Inbound.LoggedInIff | crates/wind-tuic/src/inbound.rs:369-411 | over any events there is a user exactly if one of them was a rightful Auth, in its bytes |
| Inbound.TimedOutIff | crates/wind-tuic/src/inbound.rs:303-313 | over any events the connection is closed exactly if the timeout came before any rightful Auth |
| Inbound.EventDone | crates/wind-tuic/src/inbound.rs:315-363 | over any events, what message n asks for is done exactly if it is granted to whoever logged in before |
| Inbound.NothingElseDone | crates/wind-tuic/src/inbound.rs:315-363 | a message that asks for nothing changes no relay |
| Inbound.PanicsIff | crates/wind-tuic/src/inbound.rs:382-493 | a handler panics exactly on a packet short of its size field, in a datagram only after a login |
| Inbound.GuardedSnoc | crates/wind-tuic/src/inbound.rs:414-533 | the guard is kept by every action that the handlers may take |
| AddrText.TextRoundTripIff | crates/wind-core/src/types.rs:24-101 | printing and reading back is the identity exactly on all but the ambiguous domains |
| AddrText.DomainRoundTripIff | crates/wind-core/src/types.rs:82-100 | a domain survives exactly if it has no colon, no leading bracket and is no dotted quad |
| AddrText.V4RoundTrip | crates/wind-core/src/types.rs:28-100 | every dotted quad is read back as its four octets |
| AddrText.PortRoundTrip | crates/wind-core/src/types.rs:88-92 | every port is read back from its decimal form |
| AddrText.PrintLayout | crates/wind-core/src/types.rs:24-32 | host, colon and port, with dots between octets and brackets round IPv6 |
| AddrText.DecimalText | crates/wind-core/src/types.rs:24-32 | numbers are printed in decimal, most significant digit first |
| AddrText.NumbersRead | crates/wind-core/src/types.rs:74-95 | a port may have a plus sign and leading zeros and is below 65536; an octet has neither and is below 256 |
| AddrText.HostPortRead | crates/wind-core/src/types.rs:82-100 | text with one colon is a host and a port, the host an IPv4 address exactly if it is a dotted quad |
| AddrText.NotHostPort | crates/wind-core/src/types.rs:82-86 | text with no colon or several is refused, unless it starts with a bracket |
| AddrText.BracketRead | crates/wind-core/src/types.rs:52-80 | text with a bracket is an IPv6 address and a port |
| AddrText.OpenBracketRefused | crates/wind-core/src/types.rs:53-59 | a bracket that is not closed is refused |
| AddrText.NoPortRefused | crates/wind-core/src/types.rs:61-64 | so is one not followed by a colon |
| AddrText.V4Exact | crates/wind-core/src/types.rs:94-97 | nothing is read as an IPv4 address but its own text |
| AddrText.ReadPrintRead | crates/wind-core/src/types.rs:24-101 | what was read, printed and read again is the same address |

## Left out

- Inbound.InboundCtx.HandleUniStream: packets and dissociations on uni streams are not gated by authentication in the code, so the guard is stated for bidirectional streams and datagrams only.
- Inbound.InboundCtx.Serve: the timeout is a step between two handlers and ends the loop. In the code it is a task of its own, so a handler may be under way when the connection is closed, and what the QUIC library had already accepted may still be handed out; that a connection closed by the timeout has relayed nothing is stated for the atomic step only.
- UdpStreams.TuicOutbound.ReceiveFrom: the receiving loop over a list of datagrams is a tail call, not a `while` loop.
- Delivery.EndToEndDelivery: datagrams arrive at most once each, as QUIC promises; `RoundTrip.PacketRoundTrip` and `EndToEnd.Refinement` also cover repetitions before a packet is complete.
- The server's UDP relay and its reassembly, which the code leaves unfinished; the end-to-end theorem pairs the client's sender with the client's receiving loop.
- moka's eviction policy, expiry scheduling and concurrency: caches are maps that lose entries.
- quinn, tokio and rustls: handshake, congestion, retransmission and key export.
- A datagram limit that changes in the middle of one send.
- Debug builds, in which an unchecked subtraction that underflows panics instead of wrapping.
- Overflow of `frag_id + 1` in log messages, and logging altogether.
- The text form of IPv6 addresses and lossy UTF-8 conversion, which are parameters.
- `open_tcp`, `send_auth` and `drop_udp`, which only put the encoders together.
- The SOCKS5 handshake, sending on the SOCKS5 socket, configuration, command line, TLS setup and benches.
