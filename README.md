# dockernet routing engine, modelled in Dafny

dockernet simulates a network of relays ("routers") that learn routes to each
other's addresses by distance-vector gossip. Each relay keeps a route table that
maps a destination address to its distance, its hop count and the neighbour to
send through. Every few seconds a relay broadcasts the table as the text

    ROUTING_TABLE;<destination>:<distance>:<hops>,<destination>:<distance>:<hops>,...

to the /24 broadcast address of each of its own addresses. A relay that receives
such an advertisement from a neighbour relaxes each entry through that link: it
adds its link delay to the distance and one to the hop count, takes the
neighbour as next hop, and stores the candidate only when the destination is
unknown or the candidate is strictly shorter ("improve-or-ignore"). The device
relay also forwards data packets: a packet is a query string whose
`destination` pair names the target, and the relay sends it, unchanged, to the
next hop of the route it holds for that target.

The repository carries the engine three times over:

- `src/routing/` holds a `RoutingTable` object and a `RoutingPacket`
  encoder/decoder, and `src/device/Router.java` uses them.
- `src/RoutingTable.java` and `src/Router.java` hold the table with its own
  encoder, plus two inline copies of the decode-and-relax loop.
- `dockernet/Router.java` keeps the map as a field, with its own update and
  encoder.

The model follows each copy as written, and proves all of them against one
shared specification.

Modules:

- `JavaText` (java_text.dfy) is the Java library behaviour the code relies on:
  - `String.split` with a one-character separator (trailing empty fields
    dropped, `[s]` when the separator is absent);
  - `String.join` and `startsWith`;
  - `Integer.parseInt` (sign, 32-bit range, `None` for `NumberFormatException`);
  - `Integer.toString`;
  - `int` addition with wrap-around;
  - `URLDecoder.decode`.
- `Routes` (routes.dfy) is the table as a value:
  - the improve-or-ignore update `Upsert`;
  - sequences of updates;
  - the self-route seeding.
- `Wire` (wire.dfy) is the advertisement format:
  - the entry-by-entry, fault-tolerant `Decode`;
  - the `Encode` of a table along an enumeration of its keys;
  - the round trip between them.
- `Relaxation` (relaxation.dfy) is the merge that every copy performs,
  `MergeAll` / `MergeMessage`, and its properties.
- `Addressing` (addressing.dfy) is the broadcast-address derivation and the
  send loop's targets.
- `Routing` (routing.dfy) covers `src/routing/RoutingTable.java` and
  `src/routing/RoutingPacket.java` as classes.
- `SrcRoutingTable` and `SrcRouter` cover `src/RoutingTable.java` and
  `src/Router.java`.
- `DockernetRouter` covers `dockernet/Router.java`.
- `DeviceRouter` covers `src/device/Router.java`.

Where the code mutates state, the model is a class with a `modifies` clause:
the tables and the relays. The packet builds its final list of decoded routes
in its constructor. The loops are methods with loop invariants, each proved
equal to the specification functions above, whose properties are lemmas. A relay's infinite receive loop becomes one
method per handled event (`OnBroadcast`, `HandlePacket`). A periodic broadcast
becomes `SendRoutingTable`, which returns the encoded text and the addresses it
is sent to.

Behaviour of the code that a reader might not expect, all of it modelled as
written:

- Distances and hop counts are never checked for sign: any `int` that
  `Integer.parseInt` accepts is stored, negative ones included.
- The sums `distance + delay` and `hops + 1` are Java `int` additions and wrap
  around. `Relaxation.OverflowedCandidateWins` shows the effect: a wrapped
  candidate displaces a good route. `Relaxation.MergeKeepsShortestRoute` shows
  that it cannot happen without overflow.
- The `src/` copies advertise an empty table by first seeding it with a self
  route at distance 0 per own address and then encoding it.
  `dockernet/Router.java` instead sends the prefix followed by the bare address
  list, without seeding. Every receiver skips those entries, so such an
  advertisement carries no routes: `DockernetRouter.EmptyAdvertCarriesNoRoutes`.
- The broadcast target is not limited to dotted quads: the code keeps the first
  three `.`-separated parts of any address that has at least three, and appends
  `.255`.
- A data packet without a `destination` pair is not just dropped. The device
  relay looks up a `null` key, `ConcurrentHashMap.get(null)` throws, and the
  handler for it sits outside the receive loop, so the packet listener stops for
  good (src/device/Router.java:123-124, 132-134). `DeviceRouter.Router.HandlePacket`
  returns `StopListening` in that case.

## Model

| member | source | states |
|---|---|---|
| JavaText.WrapAdd | src/routing/RoutingTable.java:38-39 | Java `int` addition: the result is an `int` congruent to the true sum modulo 2^32 |
| JavaText.WrapAddExact | src/RoutingTable.java:83-84 | without overflow the `int` sum is the ordinary sum |
| JavaText.SplitOfJoin | src/routing/RoutingPacket.java:26-29 | `split` on a one-character separator returns exactly the parts that were joined, when no part contains it and the last is non-empty |
| JavaText.SplitOfTerminated | src/routing/RoutingPacket.java:66-73 | with a separator after every part, the trailing comma is harmless: `split` returns just the parts |
| JavaText.ParseIntOfToString | src/routing/RoutingPacket.java:40-42 | `Integer.parseInt` reads back every `int` that `StringBuilder.append(int)` writes |
| JavaText.ParseIntRejectsNonDigits | src/routing/RoutingPacket.java:40-46 | text with a non-digit after its first character makes `parseInt` fail |
| JavaText.UrlDecodePlain | src/device/Router.java:148-149 | `URLDecoder.decode` leaves text without `%` and `+` unchanged |
| JavaText.IntToString | src/routing/RoutingPacket.java:69-71 | a written number is non-empty and contains neither `:` nor `,`, so it cannot break an entry |
| Routes.Upsert | src/routing/RoutingTable.java:16-29 | improve-or-ignore: keys grow by the destination only, other keys unchanged, stored distance never above the offer or the old one |
| Routes.UpsertAbsent | src/routing/RoutingTable.java:18-25 | an unknown destination is inserted with exactly the offered route |
| Routes.UpsertNotShorter | src/routing/RoutingTable.java:18-23 | an offer with distance >= the stored one leaves the whole table unchanged |
| Routes.UpsertShorter | src/routing/RoutingTable.java:21-25 | a strictly shorter offer replaces that entry and nothing else |
| Routes.ApplyAllDominates | src/routing/RoutingTable.java:16-29 | over any sequence of updates no key is removed and no stored distance grows |
| Routes.SeedSelfRoutes | src/routing/RoutingPacket.java:58-62 | seeding adds exactly the own addresses, each with route (0, 0, itself) |
| Routes.SeedEmptyTable | dockernet/Router.java:33-37 | after seeding an empty table its keys are exactly the own addresses, each mapped to (0, 0, itself) |
| Wire.EntryTextParses | src/routing/RoutingPacket.java:29-48 | a written entry `d:x:h` parses back to (d, x, h) |
| Wire.EncodeSnoc | src/routing/RoutingPacket.java:66-73 | encoding one more key appends `key:distance:hops,` |
| Wire.SplitEncodeBody | src/routing/RoutingPacket.java:26 | splitting an encoded body on `,` gives one piece per entry |
| Wire.DecodeEncode | src/routing/RoutingPacket.java:12-75 | decoding an encoding yields each key in encoding order with its distance and hops |
| Wire.DecodeEncodeTriples | src/routing/RoutingPacket.java:57-75 | round trip regardless of order: the decoded set is exactly the table's (destination, distance, hops) triples, one per key |
| Wire.AdvertisedTriples | src/routing/RoutingPacket.java:64-74 | an enumeration of the keys advertises every triple of the table once |
| Wire.EncodedStartsWithPrefix | src/routing/RoutingPacket.java:64 | every encoding starts with `ROUTING_TABLE;` |
| Wire.DecodeNeedsPrefixAndBody | src/routing/RoutingPacket.java:15-24 | a message without the prefix, or with an empty body, decodes to nothing |
| Wire.DecodeJoined | src/routing/RoutingPacket.java:20-28 | comma-joined entries behind the prefix decode entry by entry |
| Wire.DecodeEntriesAppend | src/routing/RoutingPacket.java:28-49 | decoding is entry-wise: a split list of entries decodes as the concatenation of its parts |
| Wire.DecodeEntriesStep | src/routing/RoutingPacket.java:28-49 | each entry adds its route, if it parses, after those before it |
| Wire.DecodeEntriesNone | src/routing/RoutingPacket.java:28-49 | entries none of which parse decode to nothing |
| Wire.SkipMalformedEntry | src/routing/RoutingPacket.java:31-46 | an entry that does not parse is skipped, and the entries around it are decoded as if it were absent |
| Wire.WrongArityRejected | src/routing/RoutingPacket.java:29-34 | an entry without exactly three `:`-fields does not parse |
| Wire.NonNumericRejected | src/routing/RoutingPacket.java:40-46 | an entry whose distance or hops fails `parseInt` does not parse |
| Wire.DecodeSkipsBadMiddle | src/routing/RoutingPacket.java:26-49 | `ROUTING_TABLE;A:1:0,BAD,C:2:1` and its kind decode to A and C, in order |
| Wire.DecodeEntriesSkipBadMiddle | src/routing/RoutingPacket.java:28-49 | good, bad, good entries decode to the two good routes |
| Wire.EntryTextIsPiece | src/routing/RoutingPacket.java:67-71 | an entry of a wire address is non-empty and comma-free |
| Relaxation.RelaxIsUpsert | src/routing/RoutingTable.java:41-42 | the caller's pre-check is redundant: a relaxation step is one improve-or-ignore update with the candidate |
| Relaxation.MergeIsApplyAll | src/routing/RoutingTable.java:33-45 | a merge is the sequence of updates with (distance + delay, hops + 1, sender) per decoded entry |
| Relaxation.MergeDominates | src/routing/RoutingTable.java:33-45 | a merge never removes a destination and never lengthens a stored distance |
| Relaxation.MergeAppend | src/routing/RoutingTable.java:36-44 | merging two runs of entries is merging the first and then the second |
| Relaxation.MergePrefixStep | src/routing/RoutingTable.java:36-44 | one loop iteration relaxes the next decoded entry |
| Relaxation.MergeEntriesStep | src/RoutingTable.java:64-88 | one inline-loop iteration relaxes the entry when it parses and otherwise changes nothing |
| Relaxation.MergeBound | src/routing/RoutingTable.java:36-44 | after a merge each advertised destination is stored at a distance <= every candidate offered for it |
| Relaxation.MergeStable | src/routing/RoutingTable.java:41-42 | when no candidate is strictly shorter than what is stored, the merge changes nothing |
| Relaxation.MergeIdempotent | src/routing/RoutingTable.java:33-45 | merging the same message again from the same sender with the same delay changes nothing |
| Relaxation.MergeKeys | src/routing/RoutingTable.java:36-44 | the keys after a merge are exactly the old keys plus the advertised destinations |
| Relaxation.MergeValues | src/routing/RoutingTable.java:36-44 | every entry after a merge is the old one or a candidate for that destination with the sender as next hop |
| Relaxation.MergeLeavesOthers | src/routing/RoutingTable.java:36-44 | a destination the message does not mention keeps its entry |
| Relaxation.MergeIgnoresNonAdvert | src/RoutingTable.java:52-61 | a message without the prefix, or with an empty body, leaves the table unchanged |
| Relaxation.MergeOneEntry | src/RoutingTable.java:71-87 | entry `d:x:h` from `src` stores d -> (x + delay, h + 1, src) iff d was absent or stored farther, otherwise nothing changes |
| Relaxation.MergeExample | src/RoutingTable.java:83-87 | empty table, `ROUTING_TABLE;10.0.0.5:0:0` from 10.0.0.9 with delay 120 gives 10.0.0.5 -> (120, 1, 10.0.0.9) |
| Relaxation.OverflowedCandidateWins | src/RoutingTable.java:83-87 | an advertised `Integer.MAX_VALUE` wraps negative and displaces a non-negative route |
| Relaxation.MergeKeepsShortestRoute | src/RoutingTable.java:83-87 | without overflow and with non-negative inputs, a route of distance <= 0 survives any merge |
| Addressing.BroadcastAddress | dockernet/Router.java:153-161 | an address with at least three `.`-separated parts has a broadcast address, whose parts are the first three of the address and then `255`; any other has none (`null`) |
| Addressing.BroadcastOfDottedQuad | dockernet/Router.java:153-161 | `a.b.c.d` broadcasts to `a.b.c.255` |
| Addressing.BroadcastNeedsThreeParts | src/Router.java:142-150 | with fewer than three dotted parts there is no broadcast address (`null`) |
| Addressing.BroadcastTargetsStep | dockernet/Router.java:52-58 | each address adds its broadcast address, when it has one, after those of the addresses before it |
| Addressing.SendTargets | dockernet/Router.java:52-58 | the send loop sends to the broadcast address of each own address that has one, in address order |
| Addressing.BroadcastTargetsExact | src/device/Router.java:64-70 | a datagram goes to b iff b is the broadcast address of some own address |
| Routing.AsRouteInfos | src/routing/RoutingPacket.java:48 | each decoded entry becomes `RoutingInfo(distance, hops, destination)`, in order |
| Routing.RoutingTable.constructor | src/routing/RoutingTable.java:11-13 | a new table is empty |
| Routing.RoutingTable.AddRoutingPath | src/routing/RoutingTable.java:16-30 | the table after the call is the improve-or-ignore update of the old one |
| Routing.RoutingTable.MergeRoutingTable | src/routing/RoutingTable.java:33-45 | the table after the loop is `MergeMessage` of the old table; the decoded record's `nextHop` is used as the destination |
| Routing.RoutingTable.IsEmpty | src/routing/RoutingTable.java:47-49 | empty exactly when `containsKey` holds for no destination |
| Routing.RoutingTable.ContainsKey | src/routing/RoutingTable.java:55-57 | true exactly when `get` finds a route |
| Routing.RoutingTable.GetDistance | src/routing/RoutingTable.java:59-61 | the distance of the route `get` finds |
| Routing.RoutingTable.Get | src/routing/RoutingTable.java:63-65 | the stored route, or none (`null`) exactly when the destination is unknown |
| Routing.RoutingPacket.constructor | src/routing/RoutingPacket.java:12-50 | the decoded list is exactly the records of the entries that parse, in message order |
| Routing.RoutingPacket.GetRouteInfos | src/routing/RoutingPacket.java:52-54 | one record per well-formed entry of the decoded message, in message order |
| Routing.RoutingPacket.Create | src/routing/RoutingPacket.java:57-75 | an empty table is seeded with the self routes, any other is unchanged, and the result is the encoding along an enumeration of the keys |
| Routing.RoutingPacket.IsRoutingPacket | src/routing/RoutingPacket.java:78-80 | a message that fails the check decodes to no routes |
| Routing.RoutingPacketRecognition | src/routing/RoutingPacket.java:78-80 | a message failing `isRoutingPacket` carries no routes, and every encoding passes it |
| SrcRoutingTable.RoutingTable.constructor | src/RoutingTable.java:12-14 | a new table is empty |
| SrcRoutingTable.RoutingTable.AddRoutingPath | src/RoutingTable.java:17-28 | the table after the call is the improve-or-ignore update of the old one |
| SrcRoutingTable.RoutingTable.Serialize | src/RoutingTable.java:31-48 | seeds an empty table only, then returns the encoding along an enumeration of the keys |
| SrcRoutingTable.RoutingTable.MergeRoutingTable | src/RoutingTable.java:51-89 | the inline decode-and-relax loop leaves `MergeMessage` of the old table |
| SrcRoutingTable.RoutingTable.IsEmpty | src/RoutingTable.java:91-93 | empty exactly when `containsKey` holds for no destination |
| SrcRoutingTable.RoutingTable.ContainsKey | src/RoutingTable.java:99-101 | true exactly when `get` finds a route |
| SrcRoutingTable.RoutingTable.GetDistance | src/RoutingTable.java:103-105 | the distance of the route `get` finds |
| SrcRoutingTable.RoutingTable.Get | src/RoutingTable.java:107-109 | the stored route, or none (`null`) exactly when the destination is unknown |
| SrcRouter.Router.constructor | src/Router.java:24-29 | the relay starts with an empty table and its delay |
| SrcRouter.Router.InitializeRoutingTable | src/Router.java:39-43 | every own address is offered its self route |
| SrcRouter.Router.SendRoutingTable | src/Router.java:52-68 | sends the serialized table (seeded when empty) to every broadcast target |
| SrcRouter.Router.OnBroadcast | src/Router.java:82-93 | a self-originated or empty message changes nothing; any other is merged |
| SrcRouter.Router.MergeRoutingTable | src/Router.java:101-139 | the inline loop leaves `MergeMessage` of the old table |
| DockernetRouter.Router.constructor | dockernet/Router.java:17-30 | the relay starts with exactly its self routes |
| DockernetRouter.Router.InitializeRoutingTable | dockernet/Router.java:33-37 | every own address is offered its self route |
| DockernetRouter.Router.SendRoutingTable | dockernet/Router.java:46-62 | sends the serialization to every broadcast target, without changing the table |
| DockernetRouter.Router.OnBroadcast | dockernet/Router.java:76-87 | a self-originated or empty message changes nothing; any other is merged |
| DockernetRouter.Router.MergeRoutingTable | dockernet/Router.java:95-133 | the inline loop leaves `MergeMessage` of the old table |
| DockernetRouter.Router.SerializeRoutingTable | dockernet/Router.java:136-150 | an empty map gives the prefix plus the addresses joined by `,`; any other gives the encoding along an enumeration of its keys |
| DockernetRouter.Router.AddRoute | dockernet/Router.java:164-175 | the map after the call is the improve-or-ignore update of the old one |
| DockernetRouter.EmptyAdvertCarriesNoRoutes | dockernet/Router.java:137-139 | the empty-map advertisement of `:`-free addresses decodes to no routes |
| DeviceRouter.FindDestinationAppend | src/device/Router.java:144-156 | the first pair the search does not pass over decides the answer |
| DeviceRouter.FindDestinationHead | src/device/Router.java:144-156 | a pair that is passed over hands the search to the rest |
| DeviceRouter.DestinationPairFound | src/device/Router.java:147-154 | `destination=v` yields v, whatever follows |
| DeviceRouter.NonPairsIgnored | src/device/Router.java:145-147 | `k=` and `a=b=c` are not two-part pairs and are passed over |
| DeviceRouter.MalformedEscapeAborts | src/device/Router.java:159-161 | a decoding error ends the search with `null`, even before a `destination` pair |
| DeviceRouter.Router.constructor | src/device/Router.java:29-34 | the relay starts with a fresh empty table and its delay |
| DeviceRouter.Router.InitializeRoutingTable | src/device/Router.java:45-49 | every own address is offered its self route |
| DeviceRouter.Router.SendRoutingTable | src/device/Router.java:58-74 | sends `RoutingPacket.create` (seeding an empty table) to every broadcast target |
| DeviceRouter.Router.OnBroadcast | src/device/Router.java:89-100 | a self-originated or empty message changes nothing; any other is merged |
| DeviceRouter.Router.ExtractDestinationIP | src/device/Router.java:139-163 | the loop with early returns computes the decoded value of the first `destination` pair, or none |
| DeviceRouter.Router.HandlePacket | src/device/Router.java:123-134 | forward, unchanged, to the route's next hop iff the destination is known; drop if unknown; stop listening when there is no destination |

## Left out

- Sockets, datagrams and the `ScheduledExecutorService` and `Thread` loops are not modelled. They are I/O and scheduling; one method per handled event stands in for each loop.
- The `synchronized` blocks are not modelled as concurrency. Each upsert is one atomic method, and interleavings between threads are not modelled.
- `ConcurrentHashMap` iteration is weakly consistent. It is modelled as some enumeration of the keys at the time of encoding, and no update runs concurrently with it.
- The node's own addresses (`NetworkDevice.getIPAddresses`) are an input sequence of strings. `src/NetworkDevice.java` is not part of this model.
- `InetAddress.getByName` in the broadcast derivation and in `forwardPacket` is not modelled. Only the string derivation is modelled; a DNS failure of a well-formed string is not.
- The random delay `new Random().nextInt(900) + 100` is a constructor parameter.
- Console logging and the periodic printing of the table are not modelled.
- `forwardPacket` is not modelled; `HandlePacket` returns what would be sent and to whom.
- An exception from a socket `send` part-way through the send loop is not modelled: all targets are reported.
- `src/Host.java`, `src/device/Host.java` and the entry points are not part of this model.
- JavaText.UrlDecode: maps each escaped byte to the character with that code. Java decodes each run of escaped bytes as UTF-8 (invalid sequences become U+FFFD), so escapes of bytes at or above 0x80 differ.
- `Integer.parseInt` accepts non-ASCII Unicode digits. The model accepts ASCII digits only.
- Strings are sequences of characters. Message bytes and the platform charset (`getBytes`, `new String(bytes)`) are not modelled, nor is the receive buffer's length limit.
- Routing.RoutingTable.GetDistance: requires the destination to be in the table, where Java would throw `NullPointerException`; every caller checks `containsKey` first.
- SrcRoutingTable.RoutingTable.GetDistance: requires the destination to be in the table, for the same reason.
- Wire.DecodeEncode: stated for keys free of `:` and `,`; other keys do not survive the format.
- Wire.DecodeEncodeTriples: stated for keys free of `:` and `,`, as above.
