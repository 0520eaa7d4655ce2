# NetworkLayer-DataPlane in Dafny

A model of the data plane of jjg-akers/NetworkLayer-DataPlane, with proofs. The repository simulates
hosts, routers and links that pass string-encoded packets between bounded interface queues. The model
covers four of its files:

- the fragmenting network layer (cmd/network/network2/network2.go): the 30-character packet header,
  the router's `fragment` and `forward`, and the host's reassembly goroutines;
- the first network layer (cmd/network/network/network.go): a 5-digit address prefix and identity
  forwarding;
- the root draft network.go, modelled as written, defects included;
- the link layer (cmd/link/link1/link1.go).

Files and modules:

| file | module | what |
|---|---|---|
| wrappers.dfy | `Wrappers` | `Option`, `Result`, `Outcome` |
| decimal.dfy | `Decimal` | `strconv.Itoa`, `strconv.Atoi`, `fmt`'s `%0*s` zero padding, and the 5-character field |
| interface.dfy | `Interface` | `NetworkInterface`: bounded FIFO, non-blocking `Put`, `Get` |
| codec.dfy | `Codec` | network2 `PacketHeader` with options, header encode and parse, packet `ToByteS` / `FromByteS` |
| fragmentation.dfy | `Fragmentation` | `Router.fragment` and the fragment chain it produces |
| reassembly.dfy | `Reassembly` | `fragHandler`, `storageHandler`, `orderer` and `reAssemble` as step functions over one pipeline state |
| reassembly_proof.dfy | `ReassemblyProof` | fragments arriving in any order are reassembled exactly once |
| network2.dfy | `Network2` | network2 `Host` and `Router` (`forward` with fragmentation) |
| network1.dfy | `Network1` | cmd/network/network codec, `Host` and `Router` |
| draft.dfy | `Draft` | the root network.go as written |
| link.dfy | `Link` | `Link`, `TxPkt`, `LinkLayer` |

Modelling choices:

- Objects whose fields the source updates in place become classes: interfaces, hosts, routers, links
  and the link layer. Each method's `ensures` ties the new state to a pure function of the old state,
  such as `AfterPut`, `ForwardFrom`, `TxSpec` or `Run`. The lemmas are proved about those functions.
- Go's random ID source (`r.Intn(99999)`) becomes a parameter `draw` in 0..99998.
  - One draw serves one whole operation.
  - It is used only where an ID is 0.
- A Go panic becomes a precondition. Examples:
  - a string shorter than the header before `FromByteS` slices it;
  - `fragment` called with an MTU of 30 or less on a non-empty payload;
  - a nil packet dereferenced in `UdtReceive`.
- Go's `%0*s` pads on the left with `'0'` and never truncates.
- `strconv.Atoi` accepts an optional sign followed by digits.
- Capacity 0: the simulations' comment `routerQueueSize = 1000 // 0 means unlimited` (cmd/simulation/simulation/simulation.go:15) treats a capacity of 0 as unbounded.
  The code rejects every put on such a queue (`len(Queue) < MaxQueSize` is false). The model follows
  the code (`Interface.ZeroCapacityRejectsAll`).
- The reassembly goroutines run concurrently in the source. The model fixes one schedule: a fragment
  arrives on `fragChan`, then the goroutines step until every channel is empty, then the next fragment
  arrives. Under that schedule at most one fragment or request is in the channels at a time, so the
  order in which ready goroutines are preferred does not change the outcome.
- `Router.fragment` always starts offsets at 0 and gives its last piece MF 0, even when the packet
  being cut is itself a fragment. The model keeps this behaviour.
- `forward` in network2 returns as soon as it has fragmented a packet for one interface; the
  interfaces after that one wait for the next pass. The model keeps this early return, see
  `Network2.ForwardFromSkipped`.

## Model

| member | source | states |
|---|---|---|
| Interface.NetworkInterface.constructor | cmd/network/network2/network2.go:36-43 | a new interface: empty queue, MTU 1000000, the given maximum size |
| Interface.NetworkInterface.Get | cmd/network/network2/network2.go:47-57 | returns the head and removes it exactly when the queue is non-empty; otherwise reports `Empty` and changes nothing |
| Interface.NetworkInterface.Put | cmd/network/network2/network2.go:80-89 | appends at the tail exactly when `len < MaxQueSize`; otherwise reports `QueueFull` and changes nothing |
| Interface.PutAllKeepsPrefix | cmd/network/network2/network2.go:80-89 | any run of puts keeps exactly the packets that arrive while there is room, in arrival order |
| Interface.PutAllWithinBound | cmd/network/network/network.go:75-83 | a queue within its maximum size stays within it across any run of puts |
| Interface.ZeroCapacityRejectsAll | cmd/network/network/network.go:75-83 | a maximum size of 0 or less rejects every put, with `QueueFull`, and leaves the queue unchanged |
| Interface.DrainYieldsQueue | cmd/network/network/network.go:41-51 | successive gets return the queued packets in queue order, which is FIFO |
| Interface.PutThenDrain | cmd/network/network/network.go:41-83 | packets put into a fresh interface with room for them all come back out in the order put |
| Decimal.FieldRoundTrip | cmd/network/network2/network2.go:148-155 | a value in 0..99999 padded with `%0*s` to width 5 is 5 digits, and `Atoi` reads the value back |
| Decimal.FieldWidth | cmd/network/network2/network2.go:148-155 | every value from -9999 to 99999 takes exactly 5 characters |
| Decimal.ItoaRoundTrip | cmd/network/network/network.go:109-120 | `Atoi` reads back what `Itoa` writes, negative numbers included |
| Decimal.ItoaWidth | cmd/network/network/network.go:109-120 | `Itoa` takes at most 5 characters exactly on -9999..99999, and exactly 5 on 10000..99999 and -9999..-1000 |
| Codec.ApplyOptions | cmd/network/network2/network2.go:101-137 | options never change the addresses or the length, and keep MF in {0,1} |
| Codec.NewPacketHeader | cmd/network/network2/network2.go:126-144 | a header keeps the given addresses and length, has MF 0 or 1, and an ID of 0 only when the random draw was 0 |
| Codec.NewPacketHeaderWith | cmd/network/network2/network2.go:101-144 | with the ID, MF and offset options, the header holds those values: the given ID or the draw in place of 0, and MF 1 exactly when the flag is positive |
| Codec.ParseHeader | cmd/network/network2/network2.go:161-203 | "Invalid Header Length" exactly when the header is not 30 characters; on 30 characters, the `Atoi` error exactly when one of the six fields does not parse, and success exactly when all six parse; never a length error; a parsed MF is 0 or 1 |
| Codec.NewNetworkPacket | cmd/network/network2/network2.go:216-221 | the header has the payload length, the given addresses, ID equal to the draw, MF 0 and offset 0 |
| Codec.FromByteS | cmd/network/network2/network2.go:238-263 | accepted exactly when the first 30 characters parse and their Length field equals the payload length; on success the payload is `byteS[30:]`; the field-parse error exactly when the header does not parse; "Packet length error" exactly when the header parses with a different length |
| Codec.EncodeHeaderLayout | cmd/network/network2/network2.go:147-159 | a header whose fields fit 5 digits encodes to 30 characters, fields in wire order |
| Codec.HeaderRoundTrip | cmd/network/network2/network2.go:147-203 | parsing an encoded header gives it back, with MF normalised to 0/1 and an ID of 0 replaced by the draw |
| Codec.PacketRoundTrip | cmd/network/network2/network2.go:228-263 | decoding an encoded packet returns the payload; it is accepted exactly when Length equals the payload length, else "Packet length error" |
| Codec.PacketRoundTripExact | cmd/network/network2/network2.go:228-263 | `FromByteS(ToByteS(p)) == p` for every packet with fields in 0..99999, ID not 0, MF in {0,1} and Length equal to the payload length |
| Fragmentation.FragmentHeader | cmd/network/network2/network2.go:546 | a fragment header copies dst, src and ID, and holds the given length, MF and offset |
| Fragmentation.Fragment | cmd/network/network2/network2.go:533-579 | the loop returns exactly the fragment list `FragmentSpec` describes |
| Fragmentation.FragmentsPayload | cmd/network/network2/network2.go:539-575 | the payloads of the fragments, laid end to end, are the original data |
| Fragmentation.FragmentsShape | cmd/network/network2/network2.go:543-563 | each fragment has a non-empty payload of at most `maxLength-30` characters, Length equal to it, the original dst, src and ID, and lies within the original payload |
| Fragmentation.FragmentsLinked | cmd/network/network2/network2.go:539-575 | fragments exist exactly when there is data; the first has the starting offset, the last has MF 0, every other has MF 1 and is followed by the fragment at its offset plus its length |
| Fragmentation.FragmentsCount | cmd/network/network2/network2.go:539-575 | the number of fragments is the payload length divided by `maxLength-30`, rounded up |
| Fragmentation.FragmentSpecIsChain | cmd/network/network2/network2.go:533-579 | for a non-empty payload: one chain, first offset 0, last MF 0, others MF 1, contiguous offsets, payloads rebuilding the original, and the fragment count as rounded-up division |
| Fragmentation.FragmentFits | cmd/network/network2/network2.go:543-553 | a payload that fits is returned as a single fragment with MF 0 and offset 0 |
| Fragmentation.FragmentsFitMtu | cmd/network/network2/network2.go:533-579 | when the original fields fit, every fragment encodes to at most `maxLength` characters |
| Fragmentation.FragmentsMfRange | cmd/network/network2/network2.go:546-563 | every fragment's MF is 0 or 1 |
| Reassembly.ReAssemble | cmd/network/network2/network2.go:311-318 | the loop builds `ReAssembled`: each packet's `ToByteS()[30:]` in order |
| Reassembly.ReAssembledPayloads | cmd/network/network2/network2.go:311-318 | for packets whose headers fit, the reassembled string is their payloads laid end to end |
| Reassembly.FragHandlerStep | cmd/network/network2/network2.go:413-422 | a fragment with offset 0 goes to the orderer, any other to the storage handler; nothing else changes |
| Reassembly.StorePacketStep | cmd/network/network2/network2.go:362-377 | the awaited fragment goes to the orderer and the expected offset moves past it; the store is then unchanged; any other is filed under its ID and offset with `nextMap` unchanged; no stored entry is ever removed; other IDs are untouched |
| Reassembly.StoreRequestStep | cmd/network/network2/network2.go:380-395 | a stored fragment at the requested offset goes to the orderer and the expected offset moves past it; otherwise the requested offset becomes the expected one |
| Reassembly.OrdererStep | cmd/network/network2/network2.go:325-350 | the fragment is appended to its ID's list; with MF 0 the list is handed to `reAssemble` and forgotten, otherwise the offset after it is requested |
| Reassembly.Run | cmd/network/network2/network2.go:402-431 | a quiet pipeline, with every channel empty, does not move; a run only appends to what `reAssemble` has been given, at most one chain per step |
| ReassemblyProof.OffsetsIncrease | cmd/network/network2/network2.go:563-566 | offsets grow strictly along a fragment chain |
| ReassemblyProof.Pull | cmd/network/network2/network2.go:334-395 | once the awaited fragment reaches the orderer, the orderer and storage handler pass stored fragments along until the chain completes or the next one is missing |
| ReassemblyProof.ArriveOne | cmd/network/network2/network2.go:413-422 | one more arrival, then running until quiet, keeps the reassembly invariant |
| ReassemblyProof.Reorder | cmd/network/network2/network2.go:442-446 | the fragments in the order `UdtReceive` sends them into `fragChan`: position i holds fragment `order[i]` |
| ReassemblyProof.DeliverPrefix | cmd/network/network2/network2.go:320-431 | after any number of arrivals, the orderer holds the chain prefix before the first missing fragment, in offset order |
| ReassemblyProof.ReassemblyInAnyOrder | cmd/network/network2/network2.go:320-431 | fragments of one chain, arriving in any order at a pipeline that has not seen their ID: `reAssemble` is called once with the whole chain in offset order, the channels end empty, the ID is forgotten, and no other ID's state changes |
| ReassemblyProof.ReassemblyRebuildsPayload | cmd/network/network2/network2.go:311-431 | in that case the reassembled string is the chain's payloads laid end to end |
| Network2.Host.constructor | cmd/network/network2/network2.go:282-289 | one fresh, empty interface on each side, with the given maximum size |
| Network2.Host.UdtSend | cmd/network/network2/network2.go:299-309 | exactly one non-blocking put of the encoded packet on the out interface |
| Network2.Host.UdtReceive | cmd/network/network2/network2.go:435-464 | takes the head packet if any; a fragment (offset or MF not 0) enters the reassembly pipeline, a whole packet is received |
| Network2.Host.RunHandlers | cmd/network/network2/network2.go:402-431 | the reassembly goroutines step until quiet, at most `fuel` steps |
| Network2.SentPacketDecodes | cmd/network/network2/network2.go:216-263 | what `UdtSend` puts on the wire decodes back to the packet it built, whatever the receiver's draw |
| Network2.FragmentsAreClassified | cmd/network/network2/network2.go:443 | a payload too large for the MTU gives two or more pieces, every one of which `UdtReceive` treats as a fragment; one that fits gives one piece, treated as whole |
| Network2.Router.constructor | cmd/network/network2/network2.go:504-518 | `interfaceCount` fresh, distinct, empty interface pairs with the given maximum size |
| Network2.Router.Forward | cmd/network/network2/network2.go:584-626 | the pass over the interfaces in index order produces exactly `ForwardFrom`; it needs a readable head only on the interfaces it reaches |
| Network2.ForwardableReached | cmd/network/network2/network2.go:584-626 | the precondition of a pass holds exactly when every interface it reaches, up to and including the first that fragments, has a readable head; nothing is asked of the interfaces after it, since `forward` returns there |
| Network2.Router.ForwardOne | cmd/network/network2/network2.go:588-624 | one iteration on interface `i` moves that interface pair exactly as `ForwardPort` says and leaves every other interface alone |
| Network2.Router.ForwardPair | cmd/network/network2/network2.go:590-622 | takes the head packet, if any, and dispatches it onto the paired out interface, exactly as `ForwardPort` describes |
| Network2.Router.Send | cmd/network/network2/network2.go:598-622 | a packet within the MTU is re-encoded onto the out interface; a larger one is cut and its fragments put there in order |
| Network2.ForwardFrom | cmd/network/network2/network2.go:584-626 | a pass keeps the number of interfaces |
| Network2.ForwardFromBefore | cmd/network/network2/network2.go:585 | the interfaces before the start index are left alone |
| Network2.ForwardFromVisited | cmd/network/network2/network2.go:585-624 | each interface up to and including the first one that fragments has a readable head and takes exactly one port step |
| Network2.ForwardFromSkipped | cmd/network/network2/network2.go:612 | every interface after the first one that fragments is left alone, because `forward` returns there |
| Network2.DispatchFitsMtu | cmd/network/network2/network2.go:603-622 | everything `forward` puts on an out interface fits its MTU, behind what was queued before |
| Network2.ForwardsVerbatim | cmd/network/network2/network2.go:588-622 | a well-formed packet within the out MTU is forwarded unchanged when there is room |
| Network2.FragmentCountAtMost | cmd/network/network2/network2.go:539-575 | there are at most as many fragments as payload characters |
| Network2.RoutedPacketReassembled | cmd/network/network2/network2.go:228-626 | a packet with a non-zero ID that a router fragmented, its pieces arriving in any order at a host: every piece fits the MTU and comes back from the host's `FromByteS` unchanged, passes the fragment test, `reAssemble` gets exactly the chain, and it yields the original payload |
| Network2.FragmentsSurviveWire | cmd/network/network2/network2.go:228-263 | every fragment of a packet with a non-zero ID encodes to between 30 and `maxLength` characters and decodes back to itself, whatever the receiver's draw |
| Network1.FromByteS | cmd/network/network/network.go:118-127 | fails exactly when the first 5 characters do not parse; on success the address is their value and the payload the rest |
| Network1.PacketRoundTrip | cmd/network/network/network.go:96-127 | a packet for an address in 0..99999 is 5 characters longer than its payload on the wire and decodes back to itself |
| Network1.NegativeAddressUnreadable | cmd/network/network/network.go:109-122 | every address from -999 to -1 is padded with zeros in front of its minus sign, so the receiver cannot parse it |
| Network1.RoundTripAddresses | cmd/network/network/network.go:96-127 | a packet survives the wire exactly when its address is in -9999..-1000 or 0..99999 |
| Network1.LongAddressSpills | cmd/network/network/network.go:109-127 | an address spelled with more than 5 characters does not come back: its tail ends up in the payload |
| Network1.Host.constructor | cmd/network/network/network.go:146-153 | one fresh, empty interface on each side |
| Network1.Host.UdtSend | cmd/network/network/network.go:163-171 | exactly one non-blocking put of the encoded packet on the out interface |
| Network1.Host.UdtReceive | cmd/network/network/network.go:175-180 | takes the head packet, if any, and receives it |
| Network1.ForwardFrom | cmd/network/network/network.go:247-273 | a pass keeps the number of interfaces |
| Network1.ForwardFromEach | cmd/network/network/network.go:247-273 | a pass visits every interface from the start index exactly once, moving a decodable head to the out interface with the same index, and leaves the earlier ones alone |
| Network1.ForwardsVerbatim | cmd/network/network/network.go:253-270 | a packet sent by `UdtSend` is forwarded unchanged when there is room |
| Network1.Router.constructor | cmd/network/network/network.go:217-231 | `interfaceCount` fresh, distinct, empty interface pairs |
| Network1.Router.Forward | cmd/network/network/network.go:247-273 | the pass in index order produces exactly `ForwardFrom` |
| Network1.Router.ForwardOne | cmd/network/network/network.go:253-270 | one iteration on interface `i` moves that interface pair exactly as `ForwardPort` says and leaves every other interface alone |
| Network1.Router.ForwardPair | cmd/network/network/network.go:253-270 | takes the head packet, if any, and re-encodes it onto the paired out interface when it decodes, exactly as `ForwardPort` describes |
| Draft.NetworkInterface.constructor | network.go:23-30 | empty queue, MTU 1000000, the given maximum size |
| Draft.NetworkInterface.Get | network.go:34-43 | hands out the head exactly when two or more packets are queued; otherwise reports `Empty` and changes nothing |
| Draft.NetworkInterface.Put | network.go:67-74 | appends exactly when `len < maxQueSize`; otherwise reports `QueueFull` and changes nothing |
| Draft.LastPacketWithheld | network.go:37-42 | a queue holding one packet reports `Empty` and keeps it |
| Draft.NewestPacketNeverLeaves | network.go:37-42 | repeated draft gets never empty a non-empty queue, and never hand out its newest packet |
| Draft.FromByteS | network.go:108-117 | fails exactly when the first 5 characters do not parse; on success the address is their value, the payload the rest, and the width 0 |
| Draft.UnpaddedEncoding | network.go:87-104 | the draft packet goes on the wire as the plain decimal address followed by the payload |
| Draft.DraftRoundTrip | network.go:87-117 | the round trip holds exactly for the addresses spelled with 5 characters, 10000..99999 and -9999..-1000 |
| Draft.ShortAddressMisread | network.go:87-117 | address 12 with payload "345xyz" comes back as address 12345 with payload "xyz" |
| Draft.ShortAddressUnreadable | network.go:87-117 | address 7 with payload "hello" cannot be decoded |
| Draft.Host.constructor | network.go:128-135 | both interfaces have maximum size 0 |
| Draft.Host.UdtSend | network.go:145-151 | the out interface never changes, since the put always fails |
| Draft.Host.UdtReceive | network.go:154-159 | receives the head only when the draft get hands one out |
| Draft.DraftHostDropsEverything | network.go:128-135 | every run of puts on a draft host interface leaves it empty |
| Draft.Router.constructor | network.go:188-202 | `interfaceCount` fresh, distinct, empty interface pairs with MTU 1000000 |
| Draft.Router.Forward | network.go:210-235 | when it does not panic, the pass drops the head of each in-queue and puts nothing on any out interface |
| Link.Link.constructor | cmd/link/link1/link1.go:29-43 | joins the from node's out interface to the to node's in interface and sets both MTUs to the link's; the queues are untouched |
| Link.Link.TxPkt | cmd/link/link1/link1.go:50-77 | moves at most one packet, exactly as `TxSpec` describes, and reports which exit was taken |
| Link.TxCases | cmd/link/link1/link1.go:50-77 | with no packet nothing changes; otherwise the head leaves the from queue, and reaches the to queue exactly when it fits both MTUs and there is room |
| Link.TxConservesPackets | cmd/link/link1/link1.go:50-77 | a link never creates or duplicates packets, and never delivers one longer than either MTU |
| Link.PinnedLinkTransmits | cmd/link/link1/link1.go:39-77 | on a link made by `NewLink`, a packet crosses exactly when it fits the link MTU and the far queue has room |
| Link.LinkLayer.constructor | cmd/link/link1/link1.go:86-91 | no links |
| Link.LinkLayer.AddLink | cmd/link/link1/link1.go:99-101 | appends the link |
| Link.LinkLayer.Transfer | cmd/link/link1/link1.go:104-108 | every link moves at most one packet, exactly as `TxSpec` describes |

## Left out

- The blocking branch of `Put` (cmd/network/network2/network2.go:64-78, network.go:50-64). It is a busy-wait that only another goroutine can end; only `block = false` is modelled.
- Goroutines, channels as synchronisation, the mutexes, the `Run` loops and the `Stop` channels. The reassembly goroutines are modelled under one fixed schedule, described above.
- Channel capacities of 100: a send on a full channel would block; the channels are unbounded here.
- Printing and logging. Where a message is the only effect, the model records it: `received` for whole packets, `reassembled` for the argument of `reAssemble`, and `TxOutcome` for the link messages.
- `Str` methods and the `FromNode`/`ToNode` fields of a link, which are used only for printing.
- `math/rand`: each operation takes one value `draw` for every ID it would draw at random.
- Codec.FromByteS: the source panics on a string shorter than 30 characters; the model requires at least 30, so the "Invalid Header Length" branch is only reachable through `ParseHeader` itself.
- Network2.Host.UdtReceive: a packet that fails to decode makes the source dereference a nil packet; the model requires the head to decode.
- Network2.Router.Forward: requires a head of at least 30 characters, and an MTU above 30 where that packet must be cut, on each interface the pass reaches, up to and including the first that fragments. Otherwise `FromByteS` panics, or `fragment` panics or never ends.
- Network2.DispatchFitsMtu: stated for packets whose header fields are in 0..99999. A decoded field may be negative, say "-0001", and the model does not bound the length of such a re-encoded header.
- ReassemblyProof.ReassemblyInAnyOrder: requires the chain's ID to be fresh in the store, in `nextMap` and in the orderer's map. `storageHandler` never deletes entries, so a later packet with a reused ID can pick up stale fragments; that case is not modelled.
- Reassembly.Run: the goroutines' unbounded loops are bounded by a `fuel` parameter; the theorems give enough fuel, 2n+2 steps per arrival for a chain of n fragments, to reach a quiet state.
- Link.LinkLayer.Transfer: requires that no interface belongs to two links, or to both ends of one, as in every simulation of the repository. Links that share an interface are not modelled.
- Link.Link.TxPkt: requires its two interfaces to be different objects.
- cmd/link/link1/link1.go imports a package cmd/network/network1, which is not part of this model. Its interface is taken to be the `NetworkInterface` of cmd/network/network.
- Router forwarding tables: every router sends interface i to interface i, as the source does. link.go at the root is an unfinished stub and is not part of this model.
- Network2.RoutedPacketReassembled: requires the routed packet's ID to be non-zero. With ID 0, `fragment` makes `NewPacketHeader` draw a fresh random ID for every piece (cmd/network/network2/network2.go:139-140, 546, 563), so the pieces almost never share an ID and are not reassembled. The model uses one draw for all pieces and does not capture this.
- Codec.NewNetworkPacket: Go's `len` counts the UTF-8 bytes of a string, and the model counts characters. The two agree on ASCII text, which is all the repository sends. For other text the source's Length field is the byte count.
- Codec.FromByteS: the source slices at byte 30 and compares the Length field with the byte count; the model does both in characters.
- Fragmentation.FragmentSpec: the source cuts payloads every `maxLength-30` bytes, possibly inside a multi-byte character; the model cuts every `maxLength-30` characters.
- Link.TxSpec: the source compares the byte length of a packet with the MTUs; the model compares its character count.
- `strconv.Atoi` is modelled only on strings shorter than 19 characters, so no overflow arises; every call in the source parses 5 characters.

## Findings

| source | as written | input that shows it | evidently intended | confidence | as-written member | corrected member |
|---|---|---|---|---|---|---|
| network.go:37 | `get` succeeds only when `len(n.Queue) > 1` | a queue holding one packet: `get` reports "Empty" and the packet stays until another arrives | `len(n.Queue) > 0`, as in the later cmd/network versions | high, not executed | Draft.NewestPacketNeverLeaves | Interface.DrainYieldsQueue |
| network.go:87-92 | `NewNetworkPacket` does not set `DstAddrStrLength`, so addresses are sent unpadded while `FromByteS` reads 5 characters | address 12, payload "345xyz": decoded as address 12345, payload "xyz" | width `dstAddrStrLength` (5), as in cmd/network/network/network.go:96-102 | high, not executed | Draft.ShortAddressMisread | Network1.PacketRoundTrip |
| network.go:131-132 | `NewHost` gives both interfaces maximum size 0, so every `put` fails, although line 150 says sends are always enqueued | any `UdtSend`: the out queue stays empty | a caller-supplied maximum size, as `NewHost(addr, maxQSize)` in cmd/network/network/network.go:146-153 | high, not executed | Draft.DraftHostDropsEverything | Interface.PutThenDrain |
| network.go:216 | `forward` decodes only when `get` returned an error | an in-queue holding "00001a" and "00002b": the head is dropped and nothing is forwarded; with one or no packets, `FromByteS("")` panics | `err == nil`, as in cmd/network/network/network.go:253 | high, not executed | Draft.Router.Forward | Network1.ForwardsVerbatim |
