# A verified model of icmp-socket2

This project models the packet codec, the checksums, the receive paths, the socket handles
and the Linux receive filters of the icmp-socket2 crate, and proves what a user of the crate
relies on. `dafny verify dfyconfig.toml` checks all of it.

| file | contents |
|---|---|
| `Prelude.dfy`, `PacketErrors.dfy` | option and result types, fixed-width integers, big-endian conversion, error types |
| `Checksum.dfy` | the word-summing and carry loops, against section 1 of RFC 1071 |
| `Icmpv4.dfy`, `Icmpv4Checksum.dfy`, `Icmpv4Build.dfy` | ICMPv4 printing, parsing, header detection, checksum, constructors |
| `Icmpv6.dfy`, `Icmpv6Build.dfy` | ICMPv6 printing, parsing, pseudo-header checksum, constructors |
| `Octets4.dfy`, `Octets6.dfy` | both wire formats octet by octet, apart from the printers and parsers |
| `Filter.dfy` | the allow-list masks and which types they pass |
| `Buffers.dfy`, `OsSocket.dfy`, `Receive.dfy` | the reused byte vector, the system socket, the platform receive functions |
| `Machines.dfy` | handles over one shared state, runs of calls on them, and one set of rules meeting another |
| `HandleSteps.dfy` | what each handle operation does to its own state and the shared socket |
| `World4.dfy`, `Runs4.dfy` | all ICMPv4 handles of one socket as values: the code, the ideal it meets, and runs |
| `Sockets4.dfy`, `Fleet4.dfy` | the ICMPv4 handle classes, and whole runs through the objects |
| `Answers4.dfy`, `Answers6.dfy` | every call's result and traffic after any run, and what a new handle does |
| `Interleaved4.dfy` | calls that overlap: what runs between writing a shared option and using it |
| `World6.dfy`, `Runs6.dfy`, `Sockets6.dfy`, `Fleet6.dfy` | worlds, runs, classes and objects of ICMPv6 handles |

## How the model is built

**Integers.** Widths are explicit. The source adds in a u32, where a checked build panics on
overflow and an unchecked build wraps. The summing methods return the wrapped value and a
flag that is true exactly when a checked build would have panicked, so both builds are
covered and no length is excluded. `len as u32` truncates in the model as it does in Rust.

**Checksum reference.** `Checksum.RfcSum` adds 16-bit words with end-around carry, one word at
a time, and knows nothing of wide accumulators. The results compare the code with it on the
real byte strings, including the pseudo-header of section 8.1 of RFC 8200.

**System calls.** What the system decides (whether a call fails, which port a bind gets, which
datagram arrives, how many polls find the socket not ready) is an argument of the call. The
socket keeps a trace of accepted binds, of datagrams sent with the hop limit in force, and of
blocking waits with the read timeout in force.

**Runs.** `World4.React` follows the code: a reused allocation with stale bytes, a length that
moves separately from the capacity, and option cells on the shared socket that every handle
overwrites before use. `World4.IdealReact` has none of that: a buffer is a number, options
belong to the handle, a filter is a set of types. `World4.RunMatches` proves that every run of
the first gives the results, wire traffic and final state of the second. `Fleet4.RunAll` proves
that driving the actual objects, with their allocations, aliasing, cloning and conversion, is
running the first. The statements in `Runs4` therefore hold of objects over any calls.
`World6` and `Fleet6` do the same for ICMPv6 handles.

**Overlapping calls.** In a run each call ends before the next begins. An async send awaits
writability between writing the hop limit and sending (src/async_io.rs:66-72), so other tasks
run in between; blocking calls on other threads overlap in the same way. `Interleaved4` splits
sends and blocking receives at that point, lets anything run in between on other handles, and
says under which limit or timeout the call then goes on. A handle with a call under way takes
no other call, since each of these calls borrows it exclusively.

**Results in plain terms.** `React` and its ideal share the functions that name a result or an
image. `Answers4` and `Answers6` state results and traffic without them: from the handle's own
earlier calls, the datagram, the octets of `Octets4` and `Octets6`, and what the system accepted.

**Conversions.** A conversion consumes a handle, switches the shared socket to nonblocking and
then registers it. The switch reaches every clone and outlives a failed registration; a
blocking receive logs a wait only while it has not been made.

**Where the code and its own documentation differ**, the model follows the code:

- `IcmpSocket6::rcv_from` is documented to report truncation (src/socket.rs:609-611) and never
  does (src/socket.rs:683-689). `Runs6.RcvFromExact` gives the exact condition under which it
  nevertheless answers as the whole datagram would, and when it returns a partial packet.
- The ICMPv4 receives report truncation for a datagram that exactly fills the buffer, not only
  for a larger one as src/socket.rs:277-279 says. `HandleSteps.Delivered` has that bound.
- An async `bind` that the system refuses still records the address (src/async_common.rs:67-71),
  where the blocking one does not. `Runs4.AddressAcceptedExactly` says exactly when a recorded
  address was accepted after any run, and `Runs4.RefusedBindRecordedOnlyByAsync` how it fails.
- `verify_checksum` is not the receiver's test of RFC 1071 word for word: it refuses a stored
  0xFFFF that the test accepts. `VerifyMeansRfcTest` states the exact relation for both
  versions, `AllOnesRefused` where the two differ, and `AllOnesEchoRefused` gives such packets.
- Past the u32 bound the checksum is no longer the RFC's in an unchecked build;
  `Icmpv4Checksum.ChecksumMeetsRfc1071` and `Icmpv6.ChecksumMeetsRfc` say exactly when it is.

**Properties with exceptions.** `Icmpv4Packet::parse` is for bytes that carry the IPv4 header.
`Icmpv4.PlainParseMisreadsExactly` says which packets without one it misreads instead of
rejecting, and as what; `parse_auto` recovers them all. A word exchanged between 0x0000 and
0xFFFF is invisible to a one's-complement sum; the `WordChangeDetected` results show that,
clear of a wrap, nothing else confined to one word is. ICMPv4 parsing drops what follows the
fixed length of types 13 to 16, and verification does not see it: `DroppedTailUnnoticed` and
`TypeChangeUnnoticed` say exactly when a change is masked by that, `RedirectAsTimestampVerifies`
gives packets for which one flipped bit is, and `ReceivedMeansRfcTest` compares verification
with the RFC's test of the bytes that arrived.

**Assumptions.** The capacity of `vec![0; n]` and after `shrink_to_fit` is exactly n, which the
source's own test at src/async_common.rs:194-198 relies on. A receive copies as much of one
datagram as fits and reports MSG_TRUNC exactly when it was longer.

## Model

| member | source | states |
|---|---|---|
| Checksum.SumBigEndianWords | src/packet.rs:55-75 | on every slice the result is the unbounded word sum, odd tail padded on the right, modulo 2^32, and the flag tells exactly whether it overflowed |
| Checksum.WordSumAppend | src/packet.rs:55-75 | the word sum is additive over concatenation after an even-length part |
| Checksum.OverflowBoundIsTight | src/packet.rs:55-75 | 131,074 bytes never overflow; 131,075 bytes of 0xFF do |
| Checksum.CarryLoopClosedForm | src/packet.rs:353-356 | on every u32 the carry loop ends within two passes in 0 for 0 and 1 + (S - 1) mod 65535 otherwise |
| Checksum.CarryStepKeepsNorm | src/packet.rs:353-356 | each pass strictly decreases the sum and keeps its one's-complement value |
| Checksum.FoldAndComplement | src/packet.rs:862-866 | the carry loop and `!sum as u16` yield 65535 minus the folded value |
| Checksum.RfcSumIsNorm | src/packet.rs:55-75 | one wide sum folded once equals the word-by-word end-around-carry sum of section 1 of RFC 1071 |
| Checksum.RfcExample | src/packet.rs:55-75 | the reference sum gives the worked example of section 3 of RFC 1071 |
| Checksum.FoldedComplementExact | src/packet.rs:853-867 | exactly which word totals survive the 32-bit wrap with the right checksum |
| Icmpv4.GetMessageBytes | src/packet.rs:597-687 | the appends for all eleven variants build the four field octets followed by the body |
| Icmpv4.GetBytes | src/packet.rs:842-849 | type, code, the stored or zero checksum, then the message |
| Icmpv4.ParseAccepts | src/packet.rs:758-839 | exactly which bytes parse, which error every other input gets, and that type and variant of the result agree |
| Icmpv4.ParseThenPrint | src/packet.rs:758-849 | printing a parsed packet gives a prefix: all of it except beyond 20 bytes for types 13/14 and 8 for 15/16 |
| Icmpv4.PrintThenParse | src/packet.rs:758-849 | a printed packet parses to itself if and only if its type byte matches its variant |
| Icmpv4.BytesInjective | src/packet.rs:842-849 | distinct well-formed packets have distinct wire images |
| Octets4.MessageOctets | src/packet.rs:597-687 | the octets after the checksum of each of the eleven variants, most significant first |
| Octets4.PacketOctets | src/packet.rs:842-849 | the octets of every packet, well formed or not: type, code, checksum, message |
| Octets4.TypeOctets | src/packet.rs:758-839 | the type octet that belongs to each variant |
| Octets4.ParsedTypes | src/packet.rs:758-839 | for every byte string, whether it parses, by length and first octet, and its error if not |
| Octets4.ParsedOctets | src/packet.rs:758-839 | which variant each type octet parses to, and every field as a number of its octets |
| Octets4.BuiltOctets | src/packet.rs:883-1043 | the octets of every constructor's packet, checksum still zero |
| Icmpv4.AutoDetectionUnambiguous | src/packet.rs:738-755 | any self-consistent IPv4 header, or none, is detected and removed and the packet recovered |
| Icmpv4.ParseAutoExactly | src/packet.rs:738-755 | for every byte string: a first octet 0x45 to 0x4F is a header of its own length, stripped or reported too small whatever follows; anything else is ICMP from its first octet |
| Icmpv4.PaddedRecovered | src/packet.rs:738-839 | types 13 to 16 are recovered behind any header, or none, whatever padding follows |
| Icmpv4.AutoAgreesWithDgram | src/packet.rs:724-755 | auto-detection agrees with the headerless parser on everything that one accepts |
| Icmpv4.PlainParseAccepts | src/packet.rs:702-720 | exactly which bytes the header-stripping parser accepts, what it returns for them, and which error every other input gets |
| Icmpv4.PlainParseNeverRecovers | src/packet.rs:700-720 | without a header in front no well-formed packet is given back |
| Icmpv4.PlainParseMisreadsExactly | src/packet.rs:702-755 | exactly which well-formed packets without a header are misread rather than rejected, and as what |
| Icmpv4.PlainParseMisreadsRedirect | src/packet.rs:702-755 | such packets exist: Redirects that plain parse turns into Echo Replies and auto-detection recovers |
| Icmpv4Checksum.CalculateChecksum | src/packet.rs:853-867 | computes the folded complement of the covered sum, and the flag tells exactly whether the u32 overflowed |
| Icmpv4Checksum.WithChecksum | src/packet.rs:870-873 | replaces the checksum field and nothing else |
| Icmpv4Checksum.VerifyChecksum | src/packet.rs:878-880 | decides whether the stored checksum is the computed one |
| Icmpv4Checksum.CoveredSumBoundIsTight | src/packet.rs:853-860 | packets of at most 131,076 bytes never overflow; all-ones packets one byte longer do |
| Icmpv4Checksum.OnesMessageOverflows | src/packet.rs:853-860 | overflowing packets exist at every length from 131,077 bytes |
| Icmpv4Checksum.ChecksumMeetsRfc1071 | src/packet.rs:853-867 | the checksum is RFC 1071's if and only if the wrap is harmless, hence always up to 131,076 bytes |
| Icmpv4Checksum.VerifyMeansRfcTest | src/packet.rs:878-880 | for every packet: where the u32 wrap is harmless, hence up to 131,076 bytes, verification holds iff the RFC 1071 receiver test passes and a stored 0xFFFF comes with only zero bytes; elsewhere no packet passes both |
| Icmpv4Checksum.ReceivedMeansRfcTest | src/packet.rs:758-880 | for all accepted bytes, dropped tail included: where verification or the RFC 1071 test of what arrived accepts, the other does exactly if the tail's words are a multiple of 65535, the all-ones encoding aside |
| Icmpv4Checksum.AllOnesRefused | src/packet.rs:878-880 | a stored 0xFFFF over a non-zero sum is refused, while the RFC 1071 test accepts it exactly when that sum is a multiple of 65535 |
| Icmpv4Checksum.AllOnesEchoRefused | src/packet.rs:878-880 | echo requests that the RFC 1071 test accepts and verification refuses |
| Icmpv4Checksum.FilledVerifies | src/packet.rs:869-880 | a filled packet verifies whatever its length, and reparses to itself when well formed |
| Checksum.UnnoticedWord | src/packet.rs:853-867 | exactly which replacements of one word leave the computed checksum unchanged, through any number of u32 wraps |
| Icmpv4Checksum.WordChangeDetected | src/packet.rs:758-880 | replacing any one aligned word of a filled packet of any length, where parsing drops nothing, goes unnoticed exactly for no change, or a 0x0000/0xFFFF exchange outside the checksum clear of a wrap; up to 131,076 bytes that means another covered word is non-zero |
| Icmpv4Checksum.ByteChangeDetected | src/packet.rs:758-880 | a change of one byte, at any length, is caught wherever parsing drops nothing: always when a well-formed packet keeps its type, single-bit flips included |
| Icmpv4Checksum.DroppedTailUnnoticed | src/packet.rs:758-880 | whatever parsing drops, replacing a word other than the checksum goes unnoticed exactly when the folded sums agree without the tail |
| Icmpv4Checksum.DroppedTailBelowBound | src/packet.rs:758-880 | up to 131,076 bytes with a dropped tail, that is a non-zero sum and agreement modulo 65535 |
| Icmpv4Checksum.TypeChangeUnnoticed | src/packet.rs:758-880 | another type byte that still parses is caught where the new type drops nothing, and otherwise exactly unless the type difference and the dropped words agree modulo 65535 |
| Icmpv4Checksum.RedirectAsTimestampVerifies | src/packet.rs:758-880 | filled Redirects that one flipped type bit turns into Timestamps that verify |
| Icmpv4Build.BuildImage | src/packet.rs:883-1043 | the constructors yield exactly the constructible packets, each from one request; the others, with a code above 5, 0 or 1, are refused naming that code |
| Icmpv4Build.BuiltSurvivesTheWire | src/packet.rs:883-1043 | every successful constructor call, filled, survives any header and verifies |
| Icmpv6.GetMessageBytes | src/packet.rs:206-248 | the appends for all seven variants build the four field octets followed by the body |
| Icmpv6.GetBytes | src/packet.rs:326-333 | type, code, the stored or zero checksum, then the message |
| Icmpv6.ParseThenPrint | src/packet.rs:274-333 | exactly which bytes parse, the error of every other, and that reprinting returns the bytes unchanged |
| Icmpv6.PrintThenParse | src/packet.rs:274-333 | a printed packet parses to itself if and only if its type is one of its variant's, four for PrivateExperimental |
| Octets6.MessageOctets | src/packet.rs:206-248 | the octets after the checksum of each of the seven variants, most significant first |
| Octets6.PacketOctets | src/packet.rs:326-333 | the octets of every packet, well formed or not: type, code, checksum, message |
| Octets6.TypeOctets | src/packet.rs:274-323 | the type octets that belong to each variant, four for PrivateExperimental |
| Octets6.ParsedTypes | src/packet.rs:274-323 | for every byte string, whether it parses, by length and first octet, and its error if not |
| Octets6.ParsedOctets | src/packet.rs:274-323 | which variant each type octet parses to, and every field as a number of its octets |
| Octets6.BuiltOctets | src/packet.rs:376-497 | the octets of every constructor's packet, checksum still zero |
| Icmpv6.AddressSum | src/packet.rs:51-53 | summing the eight segments equals summing the sixteen octets as words, without overflow |
| Icmpv6.CalculateChecksum | src/packet.rs:337-358 | computes the folded complement of addresses, 58, truncated length and message, and the flag tells exactly whether the u32 overflowed |
| Icmpv6.WithChecksum | src/packet.rs:362-365 | replaces the checksum field and nothing else |
| Icmpv6.VerifyChecksum | src/packet.rs:371-373 | decides whether the stored checksum is the computed one |
| Icmpv6.LengthAsOneWord | src/packet.rs:346-351 | adding the length as one u32 equals adding its two 16-bit words |
| Icmpv6.ChecksumMeetsRfc | src/packet.rs:337-358 | the checksum is RFC 1071's over the RFC 8200 pseudo-header and message iff the u32 does not overflow, hence always up to 131,039 bytes |
| Icmpv6.OverflowAt131040 | src/packet.rs:337-351 | 131,040 bytes of ones between all-ones addresses overflow |
| Icmpv6.OnesMessage | src/packet.rs:337-351 | such messages exist at every length |
| Icmpv6.VerifyMeansRfcTest | src/packet.rs:371-373 | below the u32 overflow, hence up to 131,039 bytes, verification holds iff the receiver test over pseudo-header and message passes and the stored checksum is not 0xFFFF; above it no packet passes both |
| Icmpv6.AllOnesRefused | src/packet.rs:371-373 | a stored 0xFFFF is refused, while the RFC test accepts it exactly when the covered sum is a multiple of 65535 |
| Icmpv6.AllOnesEchoRefused | src/packet.rs:371-373 | echo requests, between any two addresses, that the RFC test accepts and verification refuses |
| Icmpv6.FilledVerifies | src/packet.rs:360-373 | a filled packet verifies for its two addresses, and reparses to itself when well formed |
| Icmpv6.WordChangeDetected | src/packet.rs:274-373 | replacing any one aligned word of a filled message of any length, the type's included, is rejected as an unknown type or goes unnoticed exactly for no change, or a 0x0000/0xFFFF exchange outside the checksum clear of a wrap, which up to 131,039 bytes is every such exchange |
| Icmpv6.ByteChangeDetected | src/packet.rs:274-373 | every change of one byte, at any length, is rejected as an unknown type or caught |
| Icmpv6.AddressChangeDetected | src/packet.rs:337-373 | a filled message checked against a source one word off is refused, but for the same exchange |
| Icmpv6.AddressesCommute | src/packet.rs:337-373 | the checksum does not tell source from destination, so the same holds of the destination |
| Icmpv6Build.BuildImage | src/packet.rs:376-497 | the constructors yield exactly the constructible packets, each from one request; the others, with a code above 6, 1 or 1, are refused naming that code |
| Icmpv6Build.BuiltSurvivesTheWire | src/packet.rs:376-497 | every successful constructor call, filled, survives the wire and verifies |
| Filter.AllowMask4 | src/filter.rs:36-46 | the loop fails exactly when some type is above 31, else leaves the mask with every listed bit cleared |
| Filter.AllowMask6 | src/filter.rs:54-58 | the in-place loop over eight words leaves every listed bit cleared |
| Filter.Cleared4Passes | src/filter.rs:36-47 | the mask passes a type iff it is listed or above 31; order and duplicates do not matter |
| Filter.MaskBits4 | src/filter.rs:36-47 | bit t of the word is 0 exactly for the listed types t |
| Filter.Cleared6Passes | src/filter.rs:54-60 | the eight words pass a type iff it is listed, over all 256 types |
| Filter.MaskBits6 | src/filter.rs:54-60 | bit t mod 32 of word t / 32 is 0 exactly for the listed types t |
| Buffers.ByteVec.SetSize | src/socket.rs:144-147 | resize and shrink leave capacity and length at the requested size, from any length the buffer was left at |
| ReceivePaths.LinuxReceive | src/receive.rs:58-88 | extends to capacity, receives, and reports truncation on MSG_TRUNC or a full buffer; refuses a missing peer |
| ReceivePaths.OtherReceive | src/receive.rs:134-149 | clears, receives into the spare capacity, sets the length, and reports a full buffer as truncated |
| ReceivePaths.ReadReceived | src/socket.rs:177-180 | truncation becomes an error, else exactly the received length is handed on |
| HandleSteps.ReadsDeliver | src/socket.rs:163-187 | plain and metadata receives hand on the whole datagram when it is shorter than the buffer, else report truncation, whatever the buffer held |
| HandleSteps.PollsDeliver | src/async_common.rs:83-122 | async receives deliver the same after any number of polls that found nothing |
| HandleSteps.UncheckedDelivers | src/socket.rs:683-689 | the ICMPv6 plain receive hands on the datagram cut at the buffer size |
| HandleSteps.NewCoreIs | src/socket.rs:93-116 | every handle starts unbound with 2048 bytes, 50 hops and no timeout |
| Sockets4.RawPacketBytes | src/async_common.rs:125-127 | what a raw send transmits: the printed packet with its checksum filled, in both modes |
| Sockets4.DgramPacketBytes | src/async_common.rs:129-136 | what a datagram send transmits: the filled echo request with the given identifier |
| Sockets4.SetAllowedTypesOn | src/filter.rs:36-48 | an unfilterable list is InvalidInput and changes nothing; otherwise the filter is replaced if the system accepts |
| Sockets4.ClearTypeFilterOn | src/filter.rs:50-52 | the filter becomes the open mask if the system accepts |
| Sockets4.Icmp4Core.FromSocket | src/socket.rs:106-116 | a new core is unbound with a 2048-byte zeroed buffer, 50 hops and no timeout |
| Sockets4.Icmp4Core.TryClone | src/socket.rs:118-135 | refuses an unbound core; a clone shares the socket, copies address and options, and owns a fresh buffer of the same capacity |
| Sockets4.Icmp4Core.Bind | src/socket.rs:137-142 | the address is recorded only when the system accepted it |
| Sockets4.Icmp4Core.SetReadBufferSize | src/socket.rs:144-147 | only the buffer changes, to the requested capacity |
| Sockets4.Icmp4Core.SendBytes | src/socket.rs:156-161 | sets the socket's hop limit to the core's own, then sends exactly the bytes |
| Sockets4.Icmp4Core.Recv | src/socket.rs:163-172 | the plain receive step on the object, buffer and shared socket state included |
| Sockets4.Icmp4Core.RecvWithMeta | src/socket.rs:174-187 | the metadata receive step on the object, on either platform |
| Sockets4.DgramIcmpSocket4.Bind | src/socket.rs:415-419 | the identifier is the granted port, and stays when binding or reading it fails |
| Sockets4.DgramIcmpSocket4.Send | src/socket.rs:473-477 | sends the filled echo request carrying the handle's identifier |
| Sockets4.IcmpSocket4.SendTo | src/socket.rs:346-349 | sends the given packet with its checksum filled |
| Sockets4.AsyncIcmp4State.SetReadBufferSize | src/async_common.rs:50-53 | only the buffer changes, to the requested capacity |
| Sockets4.AsyncIcmp4State.Bind | src/async_common.rs:67-71 | the address is recorded before the system answers |
| Sockets4.AsyncIcmp4State.PrepareSend | src/async_common.rs:78-81 | sets the socket's hop limit to the state's own |
| Sockets4.AsyncIcmp4State.BeginReceive | src/async_common.rs:83-86 | empties the buffer and offers its whole allocation |
| Sockets4.AsyncIcmp4State.FinishReceive | src/async_common.rs:88-98 | a full buffer is a truncation error, else exactly the received bytes are parsed |
| Sockets4.AsyncIcmp4State.ReceiveWithMeta | src/async_common.rs:100-122 | the metadata receive step on the object |
| Sockets4.AsyncIcmpV4Socket.RcvFrom | src/async_io.rs:74-89 | the poll loop is the polled receive step, for any number of unready polls |
| Sockets4.AsyncIcmpV4Socket.RcvFromWithMeta | src/async_io.rs:91-105 | the same for the metadata receive |
| Sockets4.AsyncIcmpV4Socket.Bind | src/async_io.rs:249-253 | the async bind of both handle kinds, identifier included |
| Machines.RunMeets | src/socket.rs:105-202 | when each call of one set of rules meets another through a map of states, every run does |
| World4.RunMatches | src/socket.rs:105-202 | over every run of any calls through any clones and conversions, results, wire traffic, waits and final state are the ideal ones |
| Fleet4.Perform | src/socket.rs:260-332 | one call on one object changes only what that handle owns and the shared socket, and a clone owns only new objects |
| Fleet4.Open | src/socket.rs:93-116 | a newly opened handle is blocking and unbound with 2048 bytes, 50 hops and no timeout |
| Fleet4.StepAll | src/socket.rs:118-202 | one call through the objects is one step of the value-level world, and no two handles ever own a common object |
| Fleet4.RunAll | src/socket.rs:118-202 | any calls through the objects are that run of the value-level world |
| Runs4.SettingsAreOwn | src/socket.rs:144-202 | mode, address, identifier, buffer capacity and options are those the handle's own calls set, whatever else ran |
| Runs4.ReceiveAfterAnyRun | src/socket.rs:163-187 | after any run every receive path answers with the system's error, a missing peer, truncation, the parser's error or the packet, from the datagram and the last configured size, and the capacity is still that size |
| Runs4.NonblockingExactly | src/tokio.rs:40-56 | after any run the shared socket is nonblocking exactly if it was, or some conversion switched it, registered or not |
| Runs4.WaitsExactly | src/socket.rs:163-187 | after any run from a blocking start, an accepted blocking receive waits, and under its own timeout, if and only if no conversion in the run switched the socket |
| Runs4.SendUsesOwnHops | src/socket.rs:156-161 | after any run of whole calls a send puts out one datagram, under the sending handle's own hop limit |
| Runs4.DeliveryEndToEnd | src/socket.rs:156-187 | a well-formed packet sent raw, or any echo request sent by a datagram handle, received behind any header in a larger buffer, on any receive path that accepts its own options, arrives with only its checksum replaced, and verifies |
| Runs4.CloneIsEqual | src/socket.rs:118-135 | a clone is made exactly of a bound blocking handle and has its receive limit, address, options and identifier |
| Runs4.CloneIndistinguishable | src/socket.rs:406-411 | no sequence of calls tells a clone from its original, by results or wire traffic |
| Runs4.ConversionKeeps | src/tokio.rs:40-56 | a conversion keeps buffer size, address, options and identifier and no other handle moves; of the shared socket it changes the nonblocking mode only, even when registering then fails |
| Runs4.ConversionIndistinguishable | src/socket.rs:504-526 | after conversion the same calls, refused binds included, give the same results and send the same datagrams, where the system lets read timeouts through |
| Runs4.AcceptedExactly | src/socket.rs:137-142 | after any run an address has been accepted exactly if it had been before or some bind of it, through any handle, was granted |
| Runs4.AddressAcceptedExactly | src/async_common.rs:67-71 | after any run from an unbound start, a live handle's address was accepted unless an async handle recorded it on a refused bind and no bind of it was ever granted; blocking handles are never in doubt |
| Runs4.NothingUnasked | src/async_common.rs:67-71 | a run in which no bind on an async handle is refused leaves no address in doubt |
| Runs4.RefusedBindRecordedOnlyByAsync | src/async_common.rs:67-71 | after any run a refused bind is recorded by an async handle and by no blocking one, and does not make the address accepted |
| Runs4.IdentifierPersists | src/socket.rs:406-419 | over every run a handle and the clones made of it keep an identifier, each until its own next successful bind; refused binds and those of other handles leave it alone |
| Runs4.EchoCarriesBoundPort | src/socket.rs:415-477 | after a successful bind every echo request of the handle, its clones or their conversions, each until its own next successful bind, carries the granted port and verifies |
| Runs4.FilterIsLastCall | src/filter.rs:36-52 | after any run the kernel filter denotes the last successful filter call |
| Runs4.UnfilterableListChangesNothing | src/filter.rs:36-48 | a list fails exactly when it names a type above 31, in any position, and then nothing changes |
| Answers4.AnswersExactly | src/socket.rs:118-202 | after any run the result of every call, from the handle's own earlier calls and what the system accepted |
| Answers4.ReceiveResults | src/socket.rs:163-187 | exactly when an accepted receive gives each of its results: error of the system, missing peer, truncation, packet, error of the parser |
| Answers4.ImageOctets | src/async_common.rs:125-127 | a sent packet is its own octets under its checksum and nothing more, passes the RFC 1071 test up to 131,076 bytes, and when well formed reparses without a dropped tail |
| Answers4.RawSendPutsOut | src/socket.rs:346-349 | after any run a raw send succeeds exactly if the system accepts, and puts out those octets under the handle's own hop limit |
| Answers4.EchoSendPutsOut | src/socket.rs:473-477 | the same of a datagram send: type 8, code 0, checksum, the handle's identifier, the sequence and the payload |
| Answers4.TrafficExactly | src/socket.rs:118-202 | after any run exactly which bind, datagram or wait each call adds; calls on async handles never wait |
| Answers4.NewHandleProfile | src/socket.rs:93-116 | a new handle not yet configured is blocking with 2048 bytes, 50 hops and no timeout |
| Answers4.NewHandleDefaults | src/socket.rs:93-187 | its receives hand on datagrams of up to 2047 bytes as parsed, report truncation from 2048 on and wait without a timeout; its sends leave under hop limit 50 |
| Interleaved4.BegunAndFinished | src/async_io.rs:66-72 | a send or blocking receive with nothing between its two parts is the whole call |
| Interleaved4.CellsHoldLastWritten | src/socket.rs:156-187 | after any overlapping calls each shared option holds what was written last, and the socket is switched exactly if some conversion switched it |
| Interleaved4.BorrowedThroughout | src/async_io.rs:256-264 | while a call is under way its handle keeps everything it owns, whatever else runs |
| Interleaved4.SentUnderLastLimit | src/async_io.rs:66-72 | whatever runs while a send is under way, its own datagram leaves, under the limit written last: its own exactly if no other send has since written a different one last |
| Interleaved4.WaitsUnderLastTimeout | src/socket.rs:163-187 | whatever runs after a blocking receive wrote its timeout, it answers from its datagram and own buffer size, waits exactly if the socket is not switched by then, and under the timeout written last |
| Interleaved4.OthersLimitUsed | src/async_io.rs:66-72 | a send by another handle while this one is under way makes it leave under that handle's limit |
| World6.RunMatches | src/socket.rs:543-693 | over every run of any calls through any clones, results, wire traffic and final state are the ideal ones |
| Sockets6.IcmpSocket6.NewFromSocket | src/socket.rs:597-607 | a new handle is unbound with a 2048-byte zeroed buffer, 50 hops and no timeout |
| Sockets6.IcmpSocket6.TryClone | src/socket.rs:578-595 | refuses an unbound handle; a clone shares the socket and owns a fresh buffer of the same capacity |
| Sockets6.IcmpSocket6.SetReadBufferSize | src/socket.rs:612-615 | only the buffer changes, to the requested capacity |
| Sockets6.IcmpSocket6.Bind | src/socket.rs:653-659 | the address is recorded only when the system accepted it |
| Sockets6.IcmpSocket6.SendTo | src/socket.rs:661-681 | an unbound handle refuses; otherwise the checksum covers the bound address and the destination |
| Sockets6.IcmpSocket6.RcvFrom | src/socket.rs:683-689 | the unchecked receive step on the object |
| Sockets6.IcmpSocket6.RcvFromWithMeta | src/socket.rs:622-634 | the metadata receive step on the object, on either platform |
| Sockets6.IcmpSocket6.SetAllowedTypes | src/filter.rs:54-60 | the eight-word filter is replaced if the system accepts |
| Sockets6.IcmpSocket6.ClearTypeFilter | src/filter.rs:62-64 | the filter becomes the open mask if the system accepts |
| Runs6.SettingsAreOwn | src/socket.rs:612-634 | buffer capacity and options are those last set on that handle, whatever else ran |
| Runs6.StaysBlocking | src/socket.rs:543-693 | no ICMPv6 call changes the shared nonblocking mode |
| Runs6.ReceiveAfterAnyRun | src/socket.rs:622-689 | after any run a receive answers with the system's error, a missing peer, truncation, the parser's error or the packet, from the datagram and the last configured size; on a socket opened blocking it waits under the handle's own timeout, and it fails untouched when that timeout is refused |
| Runs6.RcvFromNeverReportsTruncation | src/socket.rs:683-689 | the plain receive reports no truncation, although its documentation promises one |
| Runs6.RcvFromExact | src/socket.rs:683-689 | exactly when the plain receive answers as the parser does on the whole datagram, and exactly when it returns a partial packet |
| Runs6.SendAfterAnyRun | src/socket.rs:661-681 | every packet leaves under the sender's own hop limit and verifies for its bound address and destination |
| Runs6.DeliveryEndToEnd | src/socket.rs:622-689 | a well-formed packet reaches any handle with a larger buffer and verifies for the two addresses |
| Runs6.AddressAccepted | src/socket.rs:653-659 | over every run each recorded address, the source of that handle's checksums, is one the system accepted |
| Runs6.AddressIsOwn | src/socket.rs:653-659 | a handle's address is that of its own last granted bind, or the one it was cloned with |
| Runs6.CloneIndistinguishable | src/socket.rs:578-595 | a clone is made exactly of a bound handle, and no sequence of calls tells it from its original |
| Runs6.FilterIsLastCall | src/filter.rs:54-64 | after any run the eight filter words denote the last successful filter call |
| Answers6.AnswersExactly | src/socket.rs:543-693 | after any run the result of every call, from the handle's own earlier calls and what the system accepted |
| Answers6.ReceiveResults | src/socket.rs:622-689 | exactly when an accepted receive gives each of its results, from the bytes it reads |
| Answers6.ImageOctets | src/socket.rs:661-681 | a sent packet is its own octets under its checksum and nothing more, passes the RFC test up to 131,039 bytes, and when well formed reparses to itself |
| Answers6.SendPutsOut | src/socket.rs:661-681 | after any run a send by an unbound handle puts out nothing; otherwise it succeeds exactly if the system accepts, and puts out those octets, for the handle's own address, under its own hop limit |
| Answers6.TrafficExactly | src/socket.rs:578-689 | after any run exactly which bind or wait every other call adds |
| Answers6.NewHandleSettings | src/socket.rs:597-607 | a new handle not yet configured has 2048 bytes, 50 hops and no timeout |
| Answers6.NewHandleDefaults | src/socket.rs:597-689 | its receives cut at or report truncation from 2048 bytes and wait without a timeout; its sends leave under hop limit 50 |
| Fleet6.Perform | src/socket.rs:578-689 | one call on one object changes only what that handle owns and the shared socket, and a clone owns only new objects |
| Fleet6.Open | src/socket.rs:597-607 | a newly opened handle is unbound with 2048 bytes, 50 hops and no timeout |
| Fleet6.StepAll | src/socket.rs:578-689 | one call through the objects is one step of the value-level world, and no two handles ever own a common object |
| Fleet6.RunAll | src/socket.rs:578-689 | any calls through the ICMPv6 objects are that run of the value-level world |

## Left out

- Runs4.WaitsExactly: speaks of whole calls; `Interleaved4.WaitsUnderLastTimeout` says what happens when other threads' calls come in between.
- Runs4.SendUsesOwnHops: speaks of whole calls; `Interleaved4.SentUnderLastLimit` says what happens when other calls come between writing the limit and sending, by another task during an async send or on another thread during a blocking one.
- Runs6.SendAfterAnyRun: speaks of whole calls; ICMPv6 handles have no async form, and overlap on other threads is stated for ICMPv4 only.
- Runs6.ReceiveAfterAnyRun: the same.
- Icmpv6.VerifyMeansRfcTest: speaks of messages whose length fits the 32-bit pseudo-header field, since the reference has no other.
- Icmpv6.ChecksumMeetsRfc: the same.
- Overlap of calls other than sends and blocking receives: binds, conversions and filter calls are single steps.
- Real system calls and the `socket2` and `nix` crates; a receive filter's effect on what is queued.
- The async runtimes beyond polls, timeouts and failures to switch or register.
- Timestamps, peer-address conversion, interface binding, packet marks and FIBs.
- The kernel's rewriting of identifiers and ICMPv6 checksums.
- Error texts and debug output; error kinds the system may return are folded into one.
