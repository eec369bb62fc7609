# Verified model of the gcs-tcpip responder

A Dafny model of a byte-level TCP/IP responder: an Ethernet frame goes in, the
connection moves, and a reply frame comes out or none does. The project proves what
the responder guarantees, from the Internet checksum up to whole runs of it.

`dafny verify dfyconfig.toml` checks everything.

## How it is built

The project has two layers.

*Specification on values.* `Decoder.Decode` is the chain of parsers and checksum
validators that a frame passes, `Responder.Decide` is the TCP automaton, and
`Responder.Step` is one call of `gcs_stack_handle_frame`: next state and reply.
`Runs.Run` and `Runs.RepliesOf` fold steps over a sequence of frames, each with the size
of its reply buffer.

*The code.* The checksum loops, the in-place writers of each header, the `Stack` and
`TcpConnection` classes with their mutable fields, and the replay loop are methods in
the source's own order of writes. The reply buffer is an array that is filled from the
back (transport, then IPv4, then Ethernet). Every method is proved equal to the
specification, including the bytes of the buffer it must not touch, so each theorem
about `Step` and `Run` is a theorem about the code.

`Wire` then describes the responder once more, from the outside: which frames are taken and
answered, every byte of each reply and the whole new connection, as offsets and numbers of
the standards in the frame's own bytes, without the codecs, their constants or the
automaton. `Session.DocumentedReply` fixes the one reply that the guide prints.

| file | contents |
|---|---|
| `Types.dfy` | integer widths, big-endian readers and writers, buffer updates |
| `Checksum.dfy` | RFC 1071 arithmetic, validation, pseudo-header |
| `Ethernet.dfy`, `Arp.dfy`, `Ipv4.dfy`, `Icmp.dfy`, `Tcp.dfy` | the codecs |
| `Decoder.dfy` | the parser chain, padding, corruption |
| `Responder.dfy` | the step function |
| `Wire.dfy` | the step function against the bytes on the wire |
| `Stack.dfy`, `Replay.dfy` | the code that refines it |
| `Replies.dfy` | properties of one reply, two stacks facing each other |
| `Runs.dfy`, `Stream.dfy`, `InOrder.dfy`, `NonInterference.dfy` | properties of whole runs |
| `Generator.dfy`, `Session.dfy`, `Limits.dfy` | the Python sample generator, a session made with it, and frames on which expectations fail |

Conventions. A read-only pointer with its length is a value of type `Bytes`; a pointer
that is written through is an array with an offset; `out_cap` is the length of the
reply array. Unsigned fields are bounded integers and every wrap is written out:
32-bit sequence numbers and checksum accumulator, 64-bit byte counter, 16-bit IP
identification. Shifts and masks are divisions and remainders.

## What turned out not to hold

These are properties that a reader of the documentation might expect of the code and that
fail. Each is proved with its exact condition and with an input on which it fails.

| expectation | holds exactly when | fails on |
|---|---|---|
| the 32-bit checksum equals the standard's | `WrapExactness`; always for an IPv4 packet (`PacketFits`) | `WrapLosesCarry` |
| the IPv4 header check notices a changed header byte | `HeaderCorruptionDetected`, and for the length nibble `LengthNibbleUndetectedIff`; the transport check behind it notices the rest (`CorruptionDetected`) | `HeaderCheckAloneFails` |
| the TCP checksum notices damaged addresses | the 16-bit halves change their sum modulo 65535 (`AddressChangeUnnoticedIff`) | `ValidEitherWay`: swapped addresses |
| a ping's reply differs only in the type byte and the checksum | `PingReplyIsIncremental`: code 0 | `PingCodeIsCleared` |
| a reply draws no further reply | always for ARP and ICMP (`RepliesAreQuiescent`), else `TcpReplyIsAnsweredIff` | `SampleSegmentIsStray` with `ResetVolleyNeverEnds` |
| two stacks facing each other fall silent | `ExchangeIsEndlessIff`, and then within two replies | `SampleSegmentIsStray`, `DataSetsOffEchoes` |
| the reset is that of RFC 793, section 3.4 | `ResetIsStandardIff` | `AckDrawsNonstandardReset` |
| an acknowledgment is SEG.SEQ + SEG.LEN | `AckIsStandardIff` | `FinDataIsLost` |
| received data is echoed | `OfferedIsEchoedIff`: it finds the connection established, comes without FIN, and its reply has room | `HandshakeDataIsLost`, `FinDataIsLost`, `SuppressedDataIsLost` |
| replies form a gapless sequence | `RepliesTileSequenceSpace` | `SuppressedDataIsLost` |
| rcv_nxt follows the sender's count | `InStepIff` | `HandshakeDataIsLost` |
| rcv_nxt follows the bytes taken | `InSyncIff` | `GapBreaksSync` |
| replies go to the peer that opened the connection | `ReplyGoesToOpenerIff` | `StrangerIsServed` |

After LISTEN the code compares neither addresses nor sequence numbers with the connection,
so the last three are obligations of the peer; `WholeSessionIsInOrder` shows sessions of any
length that meet them.

Where the documentation and the code differ the model follows the code: docs/guide.md:73-75
and README.md:15 describe an ARP table that is not in the source; docs/guide.md:103 on the
echo reply and docs/guide.md:144 on damaged addresses hold as the table says;
docs/guide.md:118 says data is acknowledged, while the code echoes it with PSH and ACK.

## Model

| member | source | states |
|---|---|---|
| Wire.TakenIff | src/gcs_stack.c:311-374 | a frame passes the chain of parsers and checksum tests if and only if its bytes are those of an ARP packet, an ICMP message or a TCP segment, with any options, fragments, TTL and padding; every field is read from its place |
| Wire.AnsweredIff | src/gcs_stack.c:38-307 | a frame is answered if and only if it is addressed to the stack or to all, the buffer has room, and it is an ARP request or ping for the stack, a segment for a closed port, a SYN while listening, or FIN or data while established |
| Wire.SegmentReplyBytes | src/gcs_stack.c:152-289 | every byte of a TCP reply but the checksums, which validate: sequence number, acknowledgment and flags 0x14, 0x12, 0x11 or 0x18 of the event, window 4096, ports swapped, no options |
| Wire.ArpReplyBytes | src/gcs_stack.c:71-91 | every byte of an ARP reply, opcode 2 |
| Wire.EchoReplyBytes | src/gcs_stack.c:124-142 | every byte of a ping's reply but the checksums, which validate |
| Wire.ConnectionAfter | src/gcs_stack.c:214-306 | the whole connection after any frame, in any state, from the bytes of the frame |
| Wire.DatagramIff | src/gcs_stack.c:343-356 | the IPv4 layer of the chain passes exactly the datagrams, options included |
| Wire.SegmentIff | src/gcs_tcp.c:7-48 | the TCP layer passes exactly the segments, options included, whose words and pseudo-header sum to zero |
| Wire.MessageIff | src/gcs_icmp.c:6-28 | the ICMP layer passes exactly the messages whose words, not all zero, sum to zero |
| Wire.FlagBit | src/gcs_tcp.c:26 | FIN, SYN and ACK are bits 0, 1 and 4 of the flags byte |
| Replies.ReplyIsValid | src/gcs_stack.c:311-390 | every non-empty reply, from any state and frame, passes the repository's own parsers and checksum tests at every layer and reads as the intended answer: addresses and ports swapped, every IPv4 header field (TTL 64, DF, no options) with the stack's IP id, and the sequence number, acknowledgment, flags and payload the automaton chose |
| Replies.RepliesExactlyWhenWanted | src/gcs_stack.c:38-307 | a reply is sent if and only if the packet is one the stack answers and the buffer has room for it; its exact length, which never exceeds the request's |
| Replies.FlagsTellTheEvent | src/gcs_stack.c:216-289 | on the wire every reply acknowledges, RST marks exactly a closed port, SYN exactly the opening, FIN exactly the close, PSH exactly data; 0x14, 0x12, 0x11 and 0x18 are the only values |
| Replies.ForeignFrameIgnored | src/gcs_stack.c:331-335 | a frame for neither the stack's nor the broadcast address changes nothing |
| Replies.CapacityOnlySuppresses | src/gcs_stack.c:158-163 | the buffer size never influences the connection; it can only suppress the reply |
| Replies.PayloadBounds | src/gcs_stack.c:124-147 | lengths of every decoded packet, from which no 16-bit cast of a length truncates |
| Replies.CorruptionIgnored | src/gcs_stack.c:343-374 | an accepted datagram with any one byte changed leaves the whole state as it was and draws no reply |
| Replies.PaddingIgnored | src/gcs_ipv4.c:21-25 | two frames that agree up to the IPv4 total length, or on the 42 bytes of an ARP frame, give the same reply and next state |
| Replies.PingReplyIsIncremental | src/gcs_stack.c:104-148 | in the reply frame to any ping, the ICMP message is the request's but for type, code and checksum, the latter plus 0x0800 and the code modulo 65535, all ones exactly for the all-zero ping; only type and checksum differ if and only if the ping had code 0 |
| Replies.RepliesAreQuiescent | src/gcs_stack.c:59-62 | an ARP or ICMP reply of one stack changes nothing in any stack and draws no reply |
| Replies.TcpReplyIsAnsweredIff | src/gcs_stack.c:216-289 | two-stack quiescence for every TCP reply: the second stack answers exactly if it is addressed and its port is closed, or both listen, or both are established |
| Replies.ResetIsAnsweredIff | src/gcs_stack.c:216-222 | its case of a reset: a closed-port reset is left unanswered exactly if the other stack is not addressed or listens on the port it goes to |
| Replies.ExchangeIsEndlessIff | src/gcs_stack.c:216-289 | between any two stacks, whatever the frame, either at most two replies are exchanged or replies never end; they never end exactly for a segment between two closed ports and for data without FIN between two established ones |
| Replies.ResetVolleyNeverEnds | src/gcs_stack.c:216-222 | a segment for a closed port, from a port closed on the other side, makes two stacks exchange resets for ever; the numbers of the n-th reset |
| Replies.EchoVolleyNeverEnds | src/gcs_stack.c:272-289 | data between two established stacks is echoed back and forth for ever, unchanged |
| Replies.ResetNumbers | src/gcs_stack.c:216-222 | every reset on the wire carries the acknowledgment of the request as its sequence number and the request's sequence number plus one as acknowledgment, whatever the segment holds |
| Replies.ResetIsStandardIff | src/gcs_stack.c:216-222 | the reset is the one of RFC 793, section 3.4, if and only if the segment has no RST, no ACK, a zero acknowledgment field and length one |
| Runs.InvariantHolds | src/gcs_tcp.c:85-94 | over every run: local address, port and iss are constant, CLOSE_WAIT is unreachable, and outside LISTEN snd_nxt is iss + 1 + bytes_received modulo 2^32 even when replies are suppressed |
| Runs.Lifecycle | src/gcs_stack.c:224-306 | between any two points of a run the state only moves forward, at most one state a frame, and a closed connection is frozen |
| Runs.FollowsDiagram | docs/guide.md:113-122 | a frame takes the connection to another state if and only if it is an accepted segment for the listening port with the flag of an edge of the documented diagram |
| Runs.StepOnConnection | src/gcs_stack.c:214-222 | only accepted segments for the listening port reach the connection, whatever the buffer |
| Runs.ReplyAt | app/gcs_replay.c:90-108 | the i-th reply of a run is the step of the i-th frame in the state reached before it |
| Runs.IdsAreConsecutive | src/gcs_stack.c:138-140 | the IP identifications read off the replies on the wire count up by one modulo 2^16; ARP replies and dropped frames take none |
| Runs.IdsAreDistinct | src/gcs_stack.c:176-178 | from a fresh stack the k-th IPv4 reply carries k modulo 2^16, and any 65536 consecutive ones are pairwise distinct |
| Stream.EchoConservation | src/gcs_stack.c:272-289 | over every run the data read off all replies is exactly the data of the accepted segments, in order, if and only if each data reply had room; otherwise strictly less |
| Stream.OfferedIsEchoedIff | src/gcs_stack.c:246-289 | over every run the data read off all replies is exactly the data of all arriving segments, in order, if and only if all of it finds the connection established and no FIN on its segment, and each data reply had room; otherwise strictly less |
| Stream.TakesTimelyData | src/gcs_stack.c:246-289 | the accepted data is the offered data exactly if all of it comes in that time, else strictly less |
| Stream.StepEchoes | src/gcs_stack.c:258-289 | a reply carries the data its frame added, or nothing when the buffer is too small |
| Stream.RoomyDataFits | src/gcs_stack.c:158-163 | reply buffers as large as the frames they answer always have room |
| Stream.BytesAreCounted | src/gcs_stack.c:278 | bytes_received is the length of the accepted stream modulo 2^64 |
| Stream.RepliesTileSequenceSpace | src/gcs_stack.c:224-289 | outside LISTEN a reply starts at iss + 1 + the number of bytes a receiver has read in the replies before it, if every earlier data reply had room; in general exactly if the suppressed bytes are a multiple of 2^32 |
| Stream.RepliesStartAfterAccepted | src/gcs_stack.c:224-289 | every reply to the peer starts at iss, or at iss + 1 + the number of bytes accepted before it modulo 2^32, echoed or not, and carries the data its segment added |
| InOrder.InSyncIff | src/gcs_stack.c:224-300 | over every run, rcv_nxt is irs + 1 + the bytes accepted, plus one after FIN, modulo 2^32, at every prefix if and only if each segment that an established connection acts on starts at rcv_nxt |
| InOrder.InStepIff | src/gcs_stack.c:224-300 | over every run, rcv_nxt is irs plus the sequence numbers that senders have used, at every prefix if and only if each segment is one that the code counts as its sender does, state by state |
| InOrder.ReceiverFollowsPeer | src/gcs_stack.c:224-300 | a peer that sends in order and puts no data on SYN, handshake ACK and FIN meets both conditions, and its count is exactly the bytes accepted and one each for SYN and FIN |
| InOrder.ReplyGoesToOpenerIff | src/gcs_stack.c:246-300 | outside LISTEN a reply goes to the peer that opened the connection if and only if the segment it answers came from there |
| InOrder.AcksAreStandard | src/gcs_stack.c:224-300 | every acknowledgment such a peer reads on the wire is SEG.SEQ + SEG.LEN of RFC 793, section 3.3, and the next expected octet |
| InOrder.AckIsStandardIff | src/gcs_stack.c:233-277 | for any segment to the listening port: the exact condition under which its acknowledgment is SEG.SEQ + SEG.LEN |
| InOrder.RemoteIsOpener | src/gcs_stack.c:233-237 | over every run the recorded remote address and port are those of the SYN that opened the connection |
| NonInterference.OtherTrafficDoesNotInterfere | src/gcs_stack.c:214-222 | deleting every frame that is not an accepted segment for the listening port changes no connection state and no reply byte outside the IP id and IP checksum |
| NonInterference.RunIsAutomaton | src/gcs_stack.c:190-307 | over every run the connection and the accepted data are those of the bare automaton fed with the accepted segments, whatever frames carry them and whatever comes between |
| NonInterference.IrrelevantStep | src/gcs_stack.c:311-390 | any such frame changes at most the IP identification counter |
| NonInterference.RelevantStep | src/gcs_stack.c:152-188 | stacks that differ only in the IP identification give replies that differ only there and in the IP checksum |
| Decoder.CorruptionDetected | src/gcs_stack.c:343-374 | changing any one byte of an accepted IPv4 packet, in header or payload, makes some parser or checksum on the chain reject it |
| Decoder.LengthNibbleChangeDetected | src/gcs_stack.c:352-374 | if a changed header length passes the header check, the ICMP or TCP check of the payload so delimited fails |
| Decoder.HeaderCorruptionDetected | src/gcs_ipv4.c:45-54 | the header check notices any one changed header byte that keeps the length nibble |
| Decoder.LengthNibbleUndetectedIff | src/gcs_ipv4.c:11-25 | a changed header length passes the header check if and only if the words gained or lost cancel it modulo 65535 |
| Decoder.HeaderCheckAloneFails | src/gcs_ipv4.c:45-54 | a family of datagrams on which it does |
| Decoder.TcpPayloadSlice | src/gcs_tcp.c:31-32 | the payload of a decoded segment is exactly the frame bytes between the headers and the IPv4 total length |
| Decoder.EchoPayloadSlice | src/gcs_icmp.c:24-25 | the same for an echo message |
| Decoder.Ipv4PaddingIgnored | src/gcs_ipv4.c:39-40 | frames that agree up to the total length decode alike |
| Decoder.ArpPaddingIgnored | src/gcs_arp.c:5-30 | frames that agree on 42 bytes decode alike |
| Decoder.DecodedAddresses | src/gcs_ethernet.c:12-13 | decoding keeps the Ethernet addresses, so filtering on them may come first or last |
| Decoder.DecodeSent | src/gcs_ipv4.c:56-78 | a datagram composed by the writers, with any padding behind it, is accepted up to the transport layer with every header field and exactly its payload |
| StackCode.Stack.HandleFrame | src/gcs_stack.c:311-391 | the code moves the object exactly as the step function says, puts exactly the reply at the front of the buffer and leaves every byte behind it alone |
| StackCode.Stack.HandleDatagram | src/gcs_stack.c:343-374 | the IPv4 branch refines the dispatch on the decoded datagram |
| StackCode.Stack.HandleSegment | src/gcs_stack.c:190-307 | the in-place automaton refines Decide and the emission, field by field |
| StackCode.Stack.EmitSegment | src/gcs_stack.c:152-188 | the frame written back to front is the specified frame; the IP id is used and advanced only when something is sent |
| StackCode.Stack.HandleIcmpFrame | src/gcs_stack.c:104-148 | the same for an echo reply |
| StackCode.Stack.HandleArpFrame | src/gcs_stack.c:38-100 | the same for an ARP reply, addressed to the sender named in the request; no IP id is used |
| StackCode.Stack.constructor | src/gcs_stack.c:24-34 | a fresh stack is the initial state of every run |
| StackCode.TcpConnection.constructor | src/gcs_tcp.c:85-94 | a fresh connection listens, with the fixed iss and all counters zero |
| Replay.ReplayCapture | app/gcs_replay.c:90-108 | running the objects through a capture, with one frame and one reply buffer, gives exactly the run and the replies of the specification: the i-th reply answers the i-th frame in the state that the frames before it led to |
| Replay.InCaptureOrder | app/gcs_replay.c:90-108 | the same of the specification |
| Replay.ReplaySample | tools/gcs_make_sample.py:59-68 | replaying the sample, with any data and large enough buffers, brings the data back exactly and leaves the connection in LAST_ACK |
| Replay.Turns | app/gcs_replay.c:82-95 | the i-th turn is the i-th frame with the one reply buffer |
| Session.SessionEchoesAndCloses | tools/gcs_make_sample.py:63-66 | for any ports, initial sequence number and list of data segments, every trace that carries the segments of a generated session, amid any other traffic, takes a fresh stack to CLOSED and brings back exactly the data |
| Session.SessionAlone | tools/gcs_make_sample.py:63-66 | the same for the session on its own |
| Session.SampleIsEchoed | tools/gcs_make_sample.py:59-68 | the sample capture, with any data and amid its ARP, pings and closed-port segment, is echoed exactly and leaves the connection in LAST_ACK |
| Session.DocumentedReply | docs/guide.md:165 | the reply to the sample's SYN is, byte for byte, the segment that the guide prints: seq 12648430, ack 1001, SYN and ACK, checksum 0xcb66 |
| Session.IdentIsInvisible | tools/gcs_make_sample.py:48-52 | the identification of a generated datagram does not reach the connection |
| Session.UploadIsAccepted | tools/gcs_make_sample.py:63-65 | after handshake and data the stack is established and has accepted exactly the data |
| Session.WholeSessionIsInOrder | tools/gcs_make_sample.py:63-66 | the generated session is that of an in-order peer, across sequence wraparound, and ends with rcv_nxt one past its FIN |
| Session.UploadIsInOrder | tools/gcs_make_sample.py:63-65 | the same for handshake and data alone |
| Session.SampleSegmentIsStray | tools/gcs_make_sample.py:67 | the sample's segment for the closed port meets the hypothesis of the endless reset exchange |
| Limits.DataSetsOffEchoes | src/gcs_stack.c:272-289 | a generated data segment between two stacks brought up from init is echoed for ever |
| Limits.OpenedIsEstablished | src/gcs_stack.c:226-256 | any stack can be brought from init to ESTABLISHED by two frames |
| Limits.HandshakeDataIsLost | src/gcs_stack.c:246-256 | three generated bytes on the handshake ACK are lost although every buffer has room: rcv_nxt stays three behind the sender while it agrees with the bytes taken |
| Limits.PingCodeIsCleared | src/gcs_icmp.c:44-46 | every ping with a code other than zero is answered with code zero |
| Limits.FinDataIsLost | src/gcs_stack.c:260-270 | a generated FIN with three bytes after the handshake: one octet acknowledged instead of four, nothing counted or echoed |
| Limits.SuppressedDataIsLost | src/gcs_stack.c:160-163 | three generated bytes with a 54-byte reply buffer are counted but never reach a receiver, and the next reply starts three octets further on |
| Limits.AckDrawsNonstandardReset | src/gcs_stack.c:216-222 | a generated bare ACK to a closed port draws RST with ACK, where the standard sends RST alone |
| Limits.GapBreaksSync | src/gcs_stack.c:272-278 | a generated byte a thousand octets ahead is taken, and rcv_nxt no longer follows the sender |
| Limits.StrangerIsServed | src/gcs_stack.c:258-289 | a generated segment from a port that took no part in the handshake is echoed to that port, while the connection names the opener |
| Limits.HandshakeLeaves | tools/gcs_make_sample.py:63-64 | the state in which the generated handshake leaves a fresh stack |
| Session.PingIsAnswered | tools/gcs_make_sample.py:61-62 | every generated ping is answered with the same identifier, sequence number and data |
| Session.ArpIsAnswered | tools/gcs_make_sample.py:60 | the generated ARP request is answered with the stack's addresses |
| Generator.GeneratedTcpDecodes | tools/gcs_make_sample.py:48-52 | every generated TCP frame passes the whole C chain, giving back every field, the flags modulo 64 as the parser keeps them, and exactly the data with padding stripped |
| Generator.GeneratedEchoDecodes | tools/gcs_make_sample.py:42-45 | the same for generated echo requests |
| Generator.GeneratedArpDecodes | tools/gcs_make_sample.py:29-32 | the generated ARP request decodes to its fields |
| Generator.EthIsPadded | tools/gcs_make_sample.py:23-26 | a frame has at least 60 bytes, with zeros behind its packet |
| Generator.ArpRequestBytes | tools/gcs_make_sample.py:29-32 | the generated ARP request, byte for byte |
| Generator.Ipv4PrintersAgree | tools/gcs_make_sample.py:35-39 | the generator's IPv4 header is byte for byte that of gcs_ipv4_write_header |
| Generator.EchoPrintersAgree | tools/gcs_make_sample.py:42-44 | the generator's echo message is byte for byte the C layout with type 8 |
| Generator.TcpPrintersAgree | tools/gcs_make_sample.py:48-51 | the generator's segment, summed over an explicit pseudo-header, is byte for byte that of gcs_tcp_build_segment |
| Generator.ComputeSum | tools/gcs_make_sample.py:12-20 | the Python loops over padded data compute the complement of the folded word sum on unbounded integers |
| Generator.SumsAgree | tools/gcs_make_sample.py:12-20 | the unbounded and the 32-bit checksum agree whenever the latter does not wrap |
| Checksum.AccumRefinesOnesSum | src/gcs_checksum.c:13-31 | deferring the carries gives the complement of word-by-word end-around-carry addition whenever the sum fits 32 bits |
| Checksum.WrapExactness | src/gcs_checksum.c:15-28 | the exact condition on a wrapped accumulator under which it still does |
| Checksum.WrapLosesCarry | src/gcs_checksum.c:15-28 | an input on which it does not |
| Checksum.LengthFits | src/gcs_checksum.c:13-31 | no content overflows the accumulator if seed + 65535 * ceil(len / 2) is below 2^32 |
| Checksum.PacketFits | src/gcs_checksum.c:13-31 | no IPv4 payload with any pseudo-header seed overflows it |
| Checksum.ComputeAccum | src/gcs_checksum.c:13-31 | the accumulating loop computes the folded, complemented word sum modulo 2^32 |
| Checksum.Finish | src/gcs_checksum.c:3-11 | the folding loop terminates with the complement of the folded sum |
| Checksum.FoldInTwoRounds | src/gcs_checksum.c:5-8 | two rounds are enough for any 32-bit accumulator |
| Checksum.FoldQuotient | src/gcs_checksum.c:5-8 | folding only removes multiples of 65535 and reaches zero only from zero |
| Checksum.ValidatesIff | src/gcs_ipv4.c:52-53 | a buffer validates if and only if its seeded word sum is positive and divisible by 65535 |
| Checksum.StoredSumIsUnique | src/gcs_ipv4.c:71-75 | zero, sum, store at any even offset always validates, and no other field value does, except all ones where zero was stored |
| Checksum.AllOnesOnlyForZero | src/gcs_checksum.c:3-31 | all ones is computed only for an all-zero buffer with a zero seed |
| Checksum.WordChangeUnnoticedIff | src/gcs_checksum.c:13-31 | a changed aligned word of a valid buffer passes exactly if it swaps the two zeros and the sum stays positive |
| Checksum.ByteChangeDetected | src/gcs_checksum.c:13-31 | a changed byte of a valid buffer never passes |
| Checksum.ComputePseudoSum | src/gcs_checksum.c:38-51 | the accumulation never wraps and is the sum of the pseudo-header fields |
| Checksum.PseudoSumIsWordSum | src/gcs_checksum.c:38-51 | that sum is the word sum of the 12 pseudo-header bytes |
| Checksum.PseudoHeaderEquivalence | src/gcs_checksum.c:38-51 | seeding with it equals the plain checksum of pseudo-header and segment together, for every length and parity |
| Tcp.HasIsOneBit | src/gcs_tcp.c:26 | a flag test picks one bit, the one of RFC 793, section 3.1, whatever the other five |
| Tcp.RoundTrip | src/gcs_tcp.c:7-83 | for all field values, build then parse is the identity on every field, with the flags modulo 64; the segment validates and its checksum field is never all ones |
| Tcp.ParsesIff | src/gcs_tcp.c:7-35 | the parser accepts exactly the laid-out segments, options included, and reads each field from its place; it drops the reserved nibble and two flag bits |
| Tcp.PrintParsed | src/gcs_tcp.c:7-83 | an accepted segment without options, urgent pointer or reserved bits is rebuilt byte for byte, up to the second representation of zero |
| Tcp.ValidEitherWay | src/gcs_tcp.c:37-48 | validity is unchanged when source and destination address are swapped |
| Tcp.AddressChangeUnnoticedIff | src/gcs_tcp.c:37-48 | other addresses in place of those a segment is valid for go unnoticed if and only if their 16-bit halves have the same sum modulo 65535 |
| Tcp.CheckChecksum | src/gcs_tcp.c:37-48 | the test by the code's loops decides validity |
| Tcp.BuildSegment | src/gcs_tcp.c:50-83 | the in-place writer produces exactly the printed segment, or 0 and nothing if it does not fit |
| Ipv4.RoundTrip | src/gcs_ipv4.c:4-78 | write then parse is the identity on every field and recovers the payload from padded data, for payloads up to 65515 bytes |
| Ipv4.ParsesIff | src/gcs_ipv4.c:4-43 | the parser accepts exactly the datagrams laid out with version 4, a header of 20 to 60 bytes, options, payload and padding, and reads each field from its place |
| Ipv4.PrintParsed | src/gcs_ipv4.c:4-78 | an accepted header of the written form is rebuilt byte for byte, up to the second representation of zero |
| Ipv4.PrintedValidates | src/gcs_ipv4.c:71-75 | every written header validates and its checksum is never all ones |
| Ipv4.CheckChecksum | src/gcs_ipv4.c:45-54 | the test by the code's loop decides validity |
| Ipv4.WriteHeader | src/gcs_ipv4.c:56-78 | the in-place writer produces exactly the printed header, or nothing if it does not fit |
| Icmp.ReplyIsIncremental | src/gcs_icmp.c:30-58 | the incremental law of RFC 1624, section 3, for every accepted echo request of any code, with the representative of zero determined; only type and checksum change if and only if the code is 0 |
| Icmp.ParsesIff | src/gcs_icmp.c:6-28 | the parser accepts exactly the laid-out messages whose checksum holds |
| Icmp.RoundTrip | src/gcs_icmp.c:6-58 | a built message of any IPv4 size is accepted and gives its fields back |
| Icmp.CodedIsAccepted | src/gcs_icmp.c:6-28 | a message with any code and its checksum filled in is accepted |
| Icmp.ParseEcho | src/gcs_icmp.c:6-28 | the parser with the code's checksum loop accepts exactly the specified messages |
| Icmp.BuildEchoReply | src/gcs_icmp.c:30-58 | the in-place writer produces exactly the printed reply, or 0 and nothing if it does not fit |
| Arp.RoundTrip | src/gcs_arp.c:5-52 | write then parse is the identity on Ethernet/IPv4 packets, whatever follows |
| Arp.ParsesIff | src/gcs_arp.c:5-30 | data parses to a packet if and only if it begins with the packet's printed form and the lengths are those of Ethernet and IPv4 |
| Arp.PrintParsed | src/gcs_arp.c:5-52 | an accepted packet is rewritten byte for byte |
| Arp.Write | src/gcs_arp.c:32-52 | the in-place writer produces exactly the printed packet, or nothing if it does not fit |
| Ethernet.RoundTrip | src/gcs_ethernet.c:5-35 | write then parse is the identity |
| Ethernet.ParsesIff | src/gcs_ethernet.c:5-20 | a frame parses to given fields if and only if it is their header followed by the payload |
| Ethernet.WriteHeader | src/gcs_ethernet.c:22-35 | the in-place writer produces exactly the printed header, or nothing if it does not fit |
| Types.ReadWrite16 | include/gcstcpip/gcs_types.h:37-52 | a stored 16-bit word is read back |
| Types.ReadWrite32 | include/gcstcpip/gcs_types.h:42-60 | a stored 32-bit word is read back |
| Types.WriteRead16 | include/gcstcpip/gcs_types.h:37-52 | a read 16-bit word is stored back as the same bytes |
| Types.WriteRead32 | include/gcstcpip/gcs_types.h:42-60 | a read 32-bit word is stored back as the same bytes |
| Types.Wr16 | include/gcstcpip/gcs_types.h:48-52 | the two byte stores change exactly the two bytes of the word |
| Types.Wr32 | include/gcstcpip/gcs_types.h:54-60 | the four byte stores change exactly the four bytes of the word |

## Left out

- The parsers are functions on values: what they leave in the caller's struct when they refuse a packet is not modelled; the code never reads it.
- Overlap of the frame and the reply buffer: they are distinct arrays, as in app/gcs_replay.c:82-83.
- The guards `icmp_len == 0` and `seg_len == 0` (src/gcs_stack.c:133-136, 171-174): the contracts of BuildEchoReply and BuildSegment make them unreachable behind the size checks above them.
- `gcs_buf_t.len`, which gcs_arp_write sets in a temporary that nobody reads.
- `size_t` wraparound: frame lengths are unbounded naturals; a frame near 2^64 bytes does not exist.
- NULL-pointer checks: references are non-null.
- Logging, the `verbose` switch, and the formatting and name functions.
- Reading and writing captures (src/gcs_pcap.c) and the TAP device (src/gcs_tap.c, app/gcs_tapd.c): a run is given by the frames that were read.
- Address parsing from text (src/gcs_types.c).
- The file header that tools/gcs_make_sample.py writes, and its argument errors, which struct.pack raises.
