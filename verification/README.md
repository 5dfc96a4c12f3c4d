# Smart home automation server: a verified model

This project models the core of a C++ smart home server and proves what its parts promise, each alone and
together:

- **Thread pool** (`ThreadPool.dfy`, `PoolRuns.dfy`). Workers, `enqueue` callers, notifications, spurious
  wakeups and the destructor as a transition system in which any thread may take the next step. Over every run:
  no lost wakeup, first-in-first-out execution of every submitted task exactly once, rest with all work done, and a shutdown that ends.
- **Addressing** (`Bits.dfy`, `NetworkConfig.dfy`, `Addressing.dfy`). Dotted-quad text, CIDR masks (RFC 4632)
  and subnet membership, from the bits up: the text conversions are inverse, and the masked comparison is
  membership in an aligned block.
- **Routing** (`RoutingTable.dfy`, `RouteUpdates.dfy`). Longest-prefix lookup over a mutable route list
  (RFC 4632 section 5.1, RFC 1812 section 5.2.4.3), its independence of insertion order, and the locality of updates.
- **Allocation** (`SubnetManager.dfy`, `Plans.dfy`, `AllocationRuns.dfy`). The per-subnet allocator over whole
  runs of allocations and releases, for every valid address plan; the configured VLSM table is proved to be one.
- **SHCP text protocol** (`Text.dfy`, `OrderedKeys.dfy`, `HttpProtocol.dfy`, `RoundTrips.dfy`, `WireFormat.dfy`).
  Printers, parser and path splitter over the parts of the C++ text library they use; each printer is undone by the
  parser under exact conditions, the texts on the wire are given in full, and so is what the parser makes of texts in
  other spacing and line endings.
- **ARP cache** (`ARPTable.dfy`, `ArpRuns.dfy`). Requests whose lookup and insertion are separate critical
  sections, interleaved with removals and flushes; and what the generated hardware addresses can tell apart.
- **Server** (`Devices.dfy`, `Commands.dfy`, `CommandRuns.dfy`, `NetworkAgreement.dfy`, `Server.dfy`,
  `RequestTexts.dfy`, `NetworkReplies.dfy`, `Sessions.dfy`). Request texts refine an abstract command machine, over single requests and
  whole client sessions, and each word of a request is given its effect and answer; the subnet table and the routing table agree on every address; start-up puts the four
  devices at four known addresses; and exactly which requests make an exception end the server.

Classes whose methods change state are Dafny classes. Each method is proved against a specification function on
values, and the laws, invariants and run theorems are proved about those functions.

## Conventions

- `uint32_t` is the subset of `int` below 2^32; `&`, `|`, `<<` and `>>` are defined bit by bit and their
  arithmetic meaning is proved. Addition wraps explicitly.
- A C++ exception is `None`, or `Refused` for the allocator. A stream is the text still unread, and
  `std::getline` fails only when nothing is unread.
- The address plan is a parameter of the subnet table: every result about it holds for all valid plans, that is,
  aligned, pairwise disjoint blocks with distinct names other than "Unknown", the gateway at network + 1 and
  `maxHosts` at most the block size minus 2.
- `double` is `Double`: a real, an infinity or NaN, with comparisons that are false on NaN. Rounding is not modelled.
- Where comments or help texts and code disagree, the model follows the code. `releaseIP` does not return an
  address to the pool, against the comment in `include/network/SubnetManager.h:22`: `IssuedAddress` shows that
  releases never change what is issued next. The client's help offers PING and ARP, but what it sends never reaches
  those handlers (`ClientNeverPings`).
- Three properties that the code suggests are false, and each comes with its exact condition. *Different addresses
  get different hardware addresses* (`tests/test_network.cpp:190-192`): two equally long texts collide if and only
  if their base-31 difference is a multiple of 2^32 (`MacsCollideExactly`); differences within six characters, and
  within seven for canonical addresses, never do, and both bounds are sharp (`SevenCharactersCollide`,
  `CanonicalAddressesCollide`). *The target temperature stays in 10..35*: it does if and only if the last valid
  setting is not NaN (`TargetInRangeUnlessNaN`, `NaNRequestIsStored`). *Every message gets a reply*: PING and ARP
  throw if and only if their target is no address (`PingFailsExactly`, `ArpFailsExactly`, `FatalRequests`). Nothing
  between the handlers and the pool's threads catches exceptions, so the first such message a session gets to ends
  the whole server (`HandleClient`).
- Insertion order in the routing table matters for an address if and only if two different routes tie for its longest
  match (`OrderMattersOnTies`).
- `lookupRoute` ignores the metric and breaks ties by earliest insertion; `removeRoute` compares the destination
  text, not the masked network; a header value made only of blanks is kept as it is; an ARP entry with an empty
  hardware address counts as a miss.

## Model

| member | source | states |
|---|---|---|
| Pool.ThreadPool.constructor | src/utils/ThreadPool.cpp:3-27 | A new pool is the initial state of the step protocol: no task, no notification owed, every worker about to look at an empty queue. |
| Pool.ThreadPool.Enqueue | src/utils/ThreadPool.cpp:44-51 | Refines the submit step: rejected without effect once stopped, otherwise queued last with one notification owed. |
| Pool.ThreadPool.Notify | src/utils/ThreadPool.cpp:52 | Refines the notify-one step: one owed notification is spent, and if anyone sleeps exactly one sleeper wakes. |
| Pool.ThreadPool.WorkerLook | src/utils/ThreadPool.cpp:9-21 | Refines the worker's critical section: sleep, return or take the oldest task. |
| Pool.ThreadPool.FinishTask | src/utils/ThreadPool.cpp:23 | Refines the completion step: the task held by the worker is recorded as completed. |
| Pool.ThreadPool.BeginDestruction | src/utils/ThreadPool.cpp:29-33 | Refines the step that sets the stop flag; queue and workers stay. |
| Pool.ThreadPool.WakeEveryone | src/utils/ThreadPool.cpp:35 | Refines notify-all: every sleeper is awake afterwards, nobody else changes. |
| Pool.ThreadPool.Join | src/utils/ThreadPool.cpp:37-41 | Refines one join: possible only when the next worker in order has returned. |
| Pool.ThreadPool.FinishDestruction | src/utils/ThreadPool.cpp:37-42 | Refines the destructor's return: possible only after every join. |
| PoolRuns.NoWakeupIsLost | src/utils/ThreadPool.cpp:9-52 | In every state of every run, with spurious wakeups, a sleeping worker implies that the queue is no longer than the awake idle workers plus the notifications owed; after notify-all nobody sleeps. |
| PoolRuns.AcceptedIsSubmitted | src/utils/ThreadPool.cpp:44-51 | The accepted tasks of any run are exactly the tasks submitted before the stop flag was set, in their order. |
| PoolRuns.AnythingCanBeSubmitted | src/utils/ThreadPool.cpp:44-53 | Any list of tasks can be submitted in any state; on a pool not stopped it joins the queue behind what waits, with one notification owed for each. |
| PoolRuns.AnyThreadMayBeNext | src/utils/ThreadPool.cpp:9-41 | No thread that is not blocked is ever excluded from taking the next step: awake, running and sleeping workers, pending notifications, the destructor. |
| PoolRuns.ExactlyOnceInOrder | src/utils/ThreadPool.cpp:10-52 | In every state of every run the tasks submitted before the stop are the started ones in order followed by the queue, and every start is matched by one completion or one worker holding the task. |
| PoolRuns.DestructionDrains | src/utils/ThreadPool.cpp:15-42 | Once the destructor has returned, every task submitted before the stop has completed exactly once if and only if there was a worker or nothing was submitted. |
| PoolRuns.QuiescentPoolIsDone | src/utils/ThreadPool.cpp:9-53 | After any run the pool can take only boundedly many steps by itself, and when none is left all tasks submitted before the stop have completed: none is stranded. |
| PoolRuns.ShutdownAdvances | src/utils/ThreadPool.cpp:15-42 | After the stop flag is set a natural number falls on every step, except a rejected submission, which changes nothing. |
| PoolRuns.ShutdownIsNotStuck | src/utils/ThreadPool.cpp:29-42 | Until the destructor has returned some step other than a submission or a spurious wakeup is possible. |
| PoolRuns.ShutdownEnds | src/utils/ThreadPool.cpp:29-42 | From any run that set the stop flag, the number of further steps is bounded, and a run that can go no further has returned with all workers gone and all tasks submitted before the stop completed. |
| Bits.AndLowMask | src/network/NetworkConfig.cpp:42-47 | Masking with the k low bits is the remainder modulo 2^k. |
| Bits.AndHighMask | src/network/NetworkConfig.cpp:58-59 | Masking an n-bit number with its bits from k up rounds it down to a multiple of 2^k. |
| Bits.OrDisjoint | src/network/NetworkConfig.cpp:36 | Or-ing a multiple of 2^k with a number below 2^k adds them. |
| Bits.BitOfAnd | src/network/NetworkConfig.cpp:43-59 | Every bit of a conjunction is set exactly if it is set in both operands. |
| Bits.BitOfOr | src/network/NetworkConfig.cpp:36 | Every bit of a disjunction is set exactly if it is set in one of the operands. |
| Text.PiecesOfJoin | src/protocol/HttpProtocol.cpp:8-12 | Reading delimited lines undoes joining them when no line holds the delimiter and the last is not empty. |
| Text.StoiOfDigits | src/network/NetworkConfig.cpp:36 | std::stoi of a text of digits is the number written, or an exception beyond the range of int. |
| Text.StoiOfIntText | src/server/Server.cpp:294-297 | std::stoi reads back every printed int, negative ones included. |
| WireFormat.StoiReads | src/network/NetworkConfig.cpp:36 | std::stoi skips white space, takes a sign and the digits up to the first other character, and throws exactly if there is no digit or the number is no int. |
| Text.DecimalOfDigitsValue | src/network/NetworkConfig.cpp:43-46 | Printing the number written by a decimal text without leading zeros gives the text. |
| NetworkConfig.IpToUint32 | src/network/NetworkConfig.cpp:30-40 | The octet loop computes the word the octet numbers of the text add up to, or throws exactly if an octet is no int. |
| NetworkConfig.IsInSubnet | src/network/NetworkConfig.cpp:54-60 | Decides the masked comparison of the two addresses, and throws exactly if one of them is unreadable. |
| Addressing.OctetsOf | src/network/NetworkConfig.cpp:42-47 | The four shifted and masked octets of an address are its digits in base 256. |
| Addressing.AddOctetsOfQuad | src/network/NetworkConfig.cpp:34-38 | Or-ing four shifted octets yields the number whose base-256 digits they are. |
| Addressing.ShortAddresses | src/network/NetworkConfig.cpp:34-38 | Fewer than four octets fill the address from the top. |
| Addressing.FirstOctetWraps | src/network/NetworkConfig.cpp:36 | Of the first number, of any size and sign, only its value modulo 256 counts. |
| Addressing.AddressOfPieces | src/network/NetworkConfig.cpp:30-40 | One to four texts that std::stoi reads, joined by dots, read as the word their numbers add up to. |
| Addressing.AddressOfQuadText | src/network/NetworkConfig.cpp:30-40 | A printed quad of octets is readable and reads as the address made of them. |
| Addressing.AddressTextRoundTrip | src/network/NetworkConfig.cpp:30-47 | Printing any 32-bit address and reading it back gives the address. |
| Addressing.CanonicalTextRoundTrip | src/network/NetworkConfig.cpp:30-47 | Reading a text and printing it gives the text back if and only if it is a canonical dotted quad. |
| Addressing.AddressTextInjective | src/network/NetworkConfig.cpp:42-47 | Different addresses have different texts. |
| Addressing.MaskOfPrefix | src/network/NetworkConfig.cpp:49-50 | The mask word of every prefix length 0..32 is 2^32 - 2^(32-cidr). |
| Addressing.MaskText | src/network/NetworkConfig.cpp:49-52 | The printed mask reads back as 2^32 - 2^(32-cidr). |
| Addressing.MembershipIsInterval | src/network/NetworkConfig.cpp:54-60 | The masked comparison holds if and only if the address lies in the aligned block of 2^(32-cidr) addresses around the network. |
| Addressing.BlocksNest | src/network/NetworkConfig.cpp:54-60 | Two blocks that share an address are nested: the longer prefix lies inside the shorter. |
| Plans.ConfiguredPlanIsValid | src/network/NetworkConfig.cpp:16-28 | The configured table is a valid plan: aligned, pairwise disjoint blocks, distinct names, gateways and host counts in place. |
| Plans.ConfiguredBlocksAreHome | src/network/NetworkConfig.cpp:17-27 | Every block of the configured table lies inside 192.168.1.0/24. |
| Plans.ConfiguredMasksFit | src/network/NetworkConfig.cpp:17-27 | Every mask text of the configured table is the mask of its prefix length, and every maxHosts is the block size minus 2. |
| Plans.InitializeResets | src/network/SubnetManager.cpp:11-21 | Initialising, at first or again, leaves exactly the plan's subnets with empty lists and host counters at 2. |
| Plans.BlocksDisjoint | src/network/NetworkConfig.cpp:16-28 | No address lies in two subnets of a valid plan. |
| Plans.FindIsContainment | src/network/SubnetManager.cpp:76-86 | findSubnet names a subnet if and only if that subnet's block contains the address, and says "Unknown" if and only if no block does. |
| Routing.RoutingTable.constructor | src/network/RoutingTable.cpp:10-14 | A new table has no routes and the all-zero default route. |
| Routing.RoutingTable.AddRoute | src/network/RoutingTable.cpp:16-33 | Appends one route with the given fields and the printed mask of its prefix length; the rest of the table stays. |
| Routing.RoutingTable.RemoveRoute | src/network/RoutingTable.cpp:35-45 | Removes every route with that destination text and length and keeps the others in order. |
| Routing.RoutingTable.LookupRoute | src/network/RoutingTable.cpp:47-65 | The scan returns the best match or the default route, and throws exactly if an address it compares is unreadable. |
| Routing.RoutingTable.SetDefaultGateway | src/network/RoutingTable.cpp:67-73 | Changes gateway and interface of the default route and nothing else. |
| Routing.LookupIsLongestEarliest | src/network/RoutingTable.cpp:51-64 | A lookup is the default route when nothing matches and otherwise the earliest-inserted matching route of maximal prefix length, which exists. |
| RouteUpdates.LookupIsOrderFree | src/network/RoutingTable.cpp:47-65 | Permuting a table in which no two different routes share length and masked network changes no lookup. |
| RouteUpdates.OrderMattersOnTies | src/network/RoutingTable.cpp:55-63 | For every table and address, all permutations of the table answer alike if and only if no two different routes tie for the longest match of that address. |
| RouteUpdates.NewRouteIsComplete | src/network/RoutingTable.cpp:21-27 | A new route holds its fields, and its mask is a canonical text that reads as 2^32 - 2^(32-cidr). |
| RouteUpdates.AddRouteIsLocal | src/network/RoutingTable.cpp:16-65 | A new route answers exactly for the addresses in its block whose matches so far are all shorter; every other lookup stays. |
| RouteUpdates.RemoveUndoesAdd | src/network/RoutingTable.cpp:16-45 | Removing an added route restores the table if and only if no route with that text and length was there before. |
| RouteUpdates.RemoveRouteIsLocal | src/network/RoutingTable.cpp:35-65 | Removal changes only lookups whose best match it removes, and never yields a longer match. |
| RouteUpdates.DefaultOnlyForUnmatched | src/network/RoutingTable.cpp:51-73 | Changing the default route changes a lookup if and only if no route matches the address. |
| RouteUpdates.RepeatedRoutesChangeNothing | src/network/RoutingTable.cpp:55-63 | Appending routes already in the table changes no lookup. |
| Subnets.SubnetManager.constructor | src/network/SubnetManager.cpp:9 | A new table is empty. |
| Subnets.SubnetManager.InitializeSubnets | src/network/SubnetManager.cpp:11-21 | The loop brings the three maps to the initialised state of the plan, keeping them consistent. |
| Subnets.SubnetManager.AllocateIP | src/network/SubnetManager.cpp:23-51 | New state and outcome are those of the abstract allocator, with its three refusals. |
| Subnets.SubnetManager.ReleaseIP | src/network/SubnetManager.cpp:53-64 | Every occurrence of the address leaves the list in order; host counters and other subnets stay. |
| Subnets.SubnetManager.FindSubnet | src/network/SubnetManager.cpp:76-86 | The scan in key order answers as the abstract search, exceptions included. |
| AllocationRuns.AllocationAccounting | src/network/SubnetManager.cpp:23-64 | After any run the host counter is 2 plus the successes, and the successes are the attempts capped at maxHosts - 1, whatever was released. |
| AllocationRuns.RefusedExactlyWhenFull | src/network/SubnetManager.cpp:25-37 | A request is refused if and only if its subnet has issued maxHosts - 1 addresses or is unknown, and a refusal changes nothing. |
| AllocationRuns.IssuedAddress | src/network/SubnetManager.cpp:32-45 | The n-th address issued in a subnet is network + n + 1, however many were released before. |
| AllocationRuns.HostAddress | src/network/SubnetManager.cpp:39-42 | A host number from 2 to maxHosts prints as a readable address inside the block, other than network, gateway and broadcast address. |
| AllocationRuns.IssuedIsHost | src/network/SubnetManager.cpp:23-86 | An issued address lies in its subnet, is not the network, gateway or broadcast address, and findSubnet returns the subnet it came from. |
| AllocationRuns.NeverIssuedTwice | src/network/SubnetManager.cpp:23-64 | Between initialisations no address is issued twice, within one subnet or across subnets. |
| AllocationRuns.StoredIsLive | src/network/SubnetManager.cpp:44-60 | The stored list holds an address if and only if the run issued it there and did not release it since. |
| AllocationRuns.StoredIsAscending | src/network/SubnetManager.cpp:44-60 | The stored list is strictly increasing, all below the next address to be issued. |
| Protocol.GetPathSegments | src/protocol/HttpProtocol.cpp:4-14 | The loop delivers the non-empty slash-separated pieces of the path, in order. |
| Protocol.ParseRequest | src/protocol/HttpProtocol.cpp:29-73 | The imperative parser computes the value the round-trip theorems are about, for every input text. |
| Protocol.ReadHeaders | src/protocol/HttpProtocol.cpp:47-70 | The header loop stops at the first empty line or the end and leaves the rest untouched as body. |
| Protocol.ReadHeader | src/protocol/HttpProtocol.cpp:54-64 | One line is split at its first colon with leading blanks of the value dropped; without a colon nothing is added. |
| Protocol.BuildRequest | src/protocol/HttpProtocol.cpp:75-89 | The printed request is first line, Host, length if there is a body, empty line, body. |
| Protocol.Serialize | src/protocol/HttpProtocol.cpp:16-27 | The printed response is status line, headers in key order, body length, empty line, body. |
| RoundTrips.RequestRoundTrip | src/protocol/HttpProtocol.cpp:29-89 | Parsing a built request returns method and path if and only if both are non-empty and free of white space; then also version, exactly the Host header and the length of a non-empty body, and the exact body. |
| RoundTrips.ParseSerialized | src/protocol/HttpProtocol.cpp:16-73 | Parsing a serialized response reads its status line as a request line and recovers the exact body. |
| RoundTrips.ResponseRoundTrip | src/protocol/HttpProtocol.cpp:16-73 | The header map plus the length comes back if and only if every key but Content-Length is free of colons and has a non-empty value that does not start with a blank; the body always does. |
| RoundTrips.ReplyRoundTrip | src/protocol/HttpProtocol.cpp:91-119 | Every reply of the server parses back to its version, status code, two fixed headers, length and exact body. |
| WireFormat.ReplyText | src/protocol/HttpProtocol.cpp:16-27 | The whole text of a reply: version, code and the reason phrase of the code, content type, server, body length, empty line, body. |
| WireFormat.ReplyFirstLines | src/protocol/HttpProtocol.cpp:91-117 | Replies start with "SHCP/1.0 200 OK", "404 Not Found", "400 Bad Request" and "500 Internal Server Error". |
| WireFormat.RequestWire | src/protocol/HttpProtocol.cpp:75-89 | The whole text of a request. |
| WireFormat.RequestLineReads | src/protocol/HttpProtocol.cpp:40-44 | A request line in any white space is read as its tokens; a missing version is SHCP/1.0, a missing path or method is empty, a fourth token is ignored. |
| WireFormat.HeaderLineMeans | src/protocol/HttpProtocol.cpp:54-64 | A header line is cut at its first colon, leading blanks go unless there is nothing else, and a line without a colon means nothing. |
| WireFormat.ParseReads | src/protocol/HttpProtocol.cpp:29-73 | A text of request line, header lines, empty line and body, each line ending in CRLF or a bare newline, is read as the request line, the headers with later ones replacing earlier ones, and the untouched body. |
| WireFormat.ParseStopsEarly | src/protocol/HttpProtocol.cpp:34-72 | A text that ends with its request line, with or without a line ending, has no headers and no body; the empty text has nothing. |
| RoundTrips.ValueSurvives | src/protocol/HttpProtocol.cpp:57-62 | A header value survives trimming if and only if it is non-empty and does not start with a blank. |
| RoundTrips.SegmentsAreSegments | src/protocol/HttpProtocol.cpp:4-14 | Segments are never empty and never contain a slash. |
| RoundTrips.SegmentsConcat | src/protocol/HttpProtocol.cpp:4-14 | The segments of two paths joined by a slash are those of the first followed by those of the second. |
| RoundTrips.SegmentsOfJoin | src/protocol/HttpProtocol.cpp:4-14 | Splitting the slash-join of a list returns the list if and only if it consists of non-empty texts without slashes; a leading slash makes no difference. |
| RoundTrips.SegmentsDelivered | src/protocol/HttpProtocol.cpp:4-89 | A request built for a list of segments free of white space delivers that list after parsing, for any body. |
| Arp.GenerateMAC | src/network/ARPTable.cpp:88-103 | The loop computes the base-31 hash modulo 2^32 of the whole text and prints its five byte groups. |
| Arp.ARPTable.constructor | src/network/ARPTable.cpp:9 | A new cache is empty. |
| Arp.ARPTable.Resolve | src/network/ARPTable.cpp:11-18 | Returns the cached hardware address, or the empty text on a miss, and changes nothing. |
| Arp.ARPTable.AddEntry | src/network/ARPTable.cpp:20-31 | The entry for the address is replaced and time-stamped; all others stay. |
| Arp.ARPTable.RemoveEntry | src/network/ARPTable.cpp:33-36 | Exactly the entry for the address goes. |
| Arp.ARPTable.ArpRequest | src/network/ARPTable.cpp:38-54 | A hit changes nothing; a miss, which includes an empty entry, returns the generated address and stores it into whatever the other threads made of the table between lookup and insertion. |
| Arp.ARPTable.IsTooOld | src/network/ARPTable.cpp:61-65 | Static entries never expire; others do when their age in whole seconds exceeds the limit. |
| Arp.ARPTable.FlushExpired | src/network/ARPTable.cpp:56-74 | Erasing during iteration removes exactly the expired entries and keeps all others unchanged. |
| ArpRuns.CacheIsTransparent | src/network/ARPTable.cpp:11-74 | In every interleaving of requests in two steps with removals and flushes, starting empty, every entry and every reply for an address is its generated hardware address, unless somebody enters another by hand. |
| ArpRuns.MissedRequestCompletes | src/network/ARPTable.cpp:38-54 | A request that misses can always store, whatever ran in between, and stores and returns the generated address. |
| ArpRuns.LookIsLookup | src/network/ARPTable.cpp:11-18 | Any new request may start; it is answered at once with a non-empty entry and goes on without one, and changes no entry. |
| ArpRuns.UpdatesAreExact | src/network/ARPTable.cpp:20-36 | A removal takes one entry, an entry by hand holds its address, time and flag, and all other entries stay. |
| ArpRuns.FlushKeepsTheYoung | src/network/ARPTable.cpp:56-74 | A flush keeps exactly the static entries and those younger than one second more than the limit, unchanged. |
| ArpRuns.MacIsWellFormed | src/network/ARPTable.cpp:95-102 | A generated address has 17 characters: "AA" and five colon-separated groups of two hexadecimal digits. |
| ArpRuns.MacSpellsHash | src/network/ARPTable.cpp:95-102 | The five groups, read as hexadecimal numbers with the high digit first, are the four bytes of the hash from the lowest up and the byte from bit 4. |
| ArpRuns.FirstDeviceMac | src/network/ARPTable.cpp:88-103 | The address generated for 192.168.1.2 is AA:16:f9:55:03:91. |
| ArpRuns.MacDeterminesHash | src/network/ARPTable.cpp:95-102 | Two generated addresses are equal if and only if the 32-bit hashes are. |
| ArpRuns.MacsCollideExactly | src/network/ARPTable.cpp:88-103 | Two equally long digit-and-dot texts inside one context get the same hardware address if and only if their base-31 difference is a multiple of 2^32. |
| ArpRuns.NearbyAddressesDiffer | src/network/ARPTable.cpp:88-103 | Equally long digit-and-dot texts that differ only inside a window of six characters, wherever it lies, get different hardware addresses. |
| ArpRuns.SevenCharactersCollide | src/network/ARPTable.cpp:88-103 | Six is sharp: two texts of seven characters get the same hardware address in every context. |
| ArpRuns.CanonicalNearbyAddressesDiffer | src/network/ARPTable.cpp:88-103 | Canonical dotted quads of one length that differ only inside a window of seven characters get different hardware addresses. |
| ArpRuns.ConfiguredNetworkHasDistinctMacs | src/network/ARPTable.cpp:88-103 | All 256 addresses of 192.168.1.0/24 get pairwise different hardware addresses, also across text lengths. |
| ArpRuns.CanonicalAddressesCollide | tests/test_network.cpp:190-192 | Seven is sharp for canonical addresses: two that differ inside eight characters get the same hardware address. |
| Devices.Light.constructor | src/devices/Light.cpp:5-12 | A new light is off at brightness 100 with the given addresses. |
| Devices.Light.TurnOn | src/devices/Device.cpp:45-48 | The light is on; its brightness stays. |
| Devices.Light.TurnOff | src/devices/Device.cpp:50-53 | The light is off; its brightness stays. |
| Devices.Light.SetBrightness | src/devices/Light.cpp:14-19 | A level below 0 sets 0, one above 100 sets 100, any other sets itself; the power stays. |
| Devices.Thermostat.constructor | src/devices/Thermostat.cpp:5-14 | A new thermostat aims at 22 degrees. |
| Devices.Thermostat.SetTargetTemperature | src/devices/Thermostat.cpp:16-21 | The target is the temperature clamped to 10..35, infinities included, and NaN if the temperature is NaN. |
| Devices.SecurityCamera.constructor | src/devices/SecurityCamera.cpp:6-15 | A new camera is off, disarmed and has seen no motion. |
| Devices.SecurityCamera.Arm | src/devices/SecurityCamera.cpp:17-21 | Arming also powers on; the motion flag stays. |
| Devices.SecurityCamera.Disarm | src/devices/SecurityCamera.cpp:23-27 | Disarming clears the motion flag and leaves the power on. |
| SmartHome.Server.constructor | src/server/Server.cpp:21-22 | A new server has no devices, subnets, routes or cache entries. |
| SmartHome.Server.InitializeNetwork | src/server/Server.cpp:26-35 | Subnet table and routing table take the plan over, one route per subnet after the existing ones, and the default gateway is set. |
| SmartHome.Server.Provision | src/server/Server.cpp:71-75 | One allocated address with the hardware address the cache has for it; a refusal leaves the cache alone, and a faithful cache stays faithful. |
| SmartHome.Server.ProvisionAll | src/server/Server.cpp:69-95 | The four allocations in their order, up to the first refusal. |
| SmartHome.Server.InitializeDevices | src/server/Server.cpp:69-100 | The devices before the first refused allocation are new and stand at the allocated addresses, the others are untouched; a faithful cache gives each its generated hardware address. |
| SmartHome.Server.Install | src/server/Server.cpp:71-95 | Exactly the devices that have a place are replaced by new ones at it. |
| SmartHome.TargetOf | src/server/Server.cpp:203-211 | The target of a PING or ARP text is what follows the first blank with trailing blanks, CRs and newlines removed. |
| SmartHome.Respond | src/protocol/HttpProtocol.cpp:121-132 | An answer leaves as the serialized response with its status code. |
| SmartHome.Server.HandleLightCommand | src/server/Server.cpp:261-308 | Answer and new state are those of the abstract machine, for every list of segments; no other device changes. |
| SmartHome.Server.HandleThermostatCommand | src/server/Server.cpp:310-354 | Answer and new state are those of the abstract machine; no other device changes. |
| SmartHome.Server.HandleSecurityCommand | src/server/Server.cpp:356-396 | Answer and new state are those of the abstract machine; no other device changes. |
| SmartHome.Server.HandlePingCommand | src/server/Server.cpp:413-424 | Reports the route the lookup finds in front of the ping's text; a target or a route that is no address throws, the target also when the lookup does not read it. |
| SmartHome.Server.HandleArpCommand | src/server/Server.cpp:426-439 | Reports the hardware address and the subnet; the cache keeps the entry even when the subnet search throws. |
| SmartHome.Server.ProcessCommand | src/server/Server.cpp:199-259 | Every request text moves the devices as its decoded command does on the abstract machine and gets that machine's answer; only ARP requests touch the cache. |
| SmartHome.Server.ProcessHttp | src/server/Server.cpp:235-259 | A text that is no PING or ARP command is parsed, split and answered as its decoded command. |
| SmartHome.Server.Dispatch | src/server/Server.cpp:239-258 | The first segment selects the handler; empty and unknown ones get their 404 answers. |
| CommandRuns.PowerFollowsLastSwitch | src/server/Server.cpp:286-291 | After any run the light is on exactly if the last on/off command was on; without one it is as before. |
| CommandRuns.BrightnessFollowsLastSetting | src/server/Server.cpp:292-303 | After any run the brightness is the last valid setting, or 0 or 100 if that was below or above; without one it is as before. |
| CommandRuns.ArmedFollowsLastArming | src/server/Server.cpp:384-391 | After any run the camera is armed exactly if the last arm/disarm command was arm. |
| CommandRuns.RunsStaySane | src/devices/SecurityCamera.cpp:17-27 | After any run from four new devices an armed camera is on, it is on exactly if it was ever armed, the brightness is in 0..100, and the second light never changes. |
| CommandRuns.TargetFollowsLastSetting | src/server/Server.cpp:337-348 | After any run the target is the last valid setting clamped; without one it is as before. |
| CommandRuns.TargetInRangeUnlessNaN | src/devices/Thermostat.cpp:16-21 | From a target in 10..35 any run ends with one in 10..35 if and only if its last valid setting, if any, is not NaN. |
| CommandRuns.NaNRequestIsStored | src/server/Server.cpp:337-341 | With a conversion that reads "nan" as NaN, one request for /thermostat/set/nan leaves NaN as the target. |
| CommandRuns.DevicesStayPut | src/server/Server.cpp:199-411 | No run of commands adds, removes or moves a device. |
| CommandRuns.OnlyEffectiveCommandsChange | src/server/Server.cpp:199-411 | A command leaves every house unchanged if and only if it is not a switch, brightness, temperature or arming command. |
| CommandRuns.BuiltRequestIsDispatched | src/server/Server.cpp:199-259 | A request built for a segment list reaches the handlers as that list if and only if its text does not start like a PING or ARP command. |
| CommandRuns.BrightnessRequestArrives | src/server/Server.cpp:292-298 | A client's request for /light/brightness/n, printed, parsed, split and converted, sets brightness n, for every int. |
| CommandRuns.ClientNeverPings | src/client/Client.cpp:63-69 | Whatever the user types, the request the client sends is never taken for PING or ARP. |
| RequestTexts.BuiltRequestOutcome | src/server/Server.cpp:235-259 | A request built for a path has the effect and the answer of the path. |
| RequestTexts.LightRequests | src/server/Server.cpp:276-291 | /light/on switches the light on, /light/off off, /light/status changes nothing; each with its code and text, whatever follows in the path. |
| RequestTexts.BrightnessRequests | src/server/Server.cpp:292-303 | /light/brightness/v sets the clamped number or, if v is none, changes nothing; each with its code and text. |
| RequestTexts.OtherLightRequests | src/server/Server.cpp:305-307 | Any other word after /light changes nothing and is reported with code 404. |
| RequestTexts.ThermostatRequests | src/server/Server.cpp:332-349 | /thermostat/status changes nothing, /thermostat/set/v sets the clamped temperature or changes nothing; each with its code and text. |
| RequestTexts.OtherThermostatRequests | src/server/Server.cpp:326-353 | Any other word after /thermostat, and none, changes nothing and is answered with code 404. |
| RequestTexts.CameraRequests | src/server/Server.cpp:372-391 | /security/arm arms and powers on, /security/disarm disarms and clears the motion flag, /security/status changes nothing; each with its code and text. |
| RequestTexts.OtherCameraRequests | src/server/Server.cpp:393-395 | Any other word after /security changes nothing and is reported with code 404. |
| RequestTexts.OtherRequests | src/server/Server.cpp:239-258 | An empty path, /devices, an unknown resource and a missing device change nothing and get their codes and texts. |
| RequestTexts.UsageAnswers | src/server/Server.cpp:214-232 | PING and ARP without a target get their usage answers with code 500. |
| RequestTexts.NewDevices | src/server/Server.cpp:71-95 | Four new devices: both lights off at 100, the thermostat at 22 degrees, the camera off and disarmed, each at its own place. |
| RequestTexts.HelpCommands | src/client/Client.cpp:136-143 | The client's commands /light/on, /light/off, /security/arm and /security/disarm arrive as what they say. |
| RequestTexts.PowerFollowsTexts | src/server/Server.cpp:286-291 | Over any run of request texts the light is on exactly if the last of /light/on and /light/off was on. |
| RequestTexts.ArmingFollowsTexts | src/server/Server.cpp:384-391 | Over any run of request texts the camera is armed exactly if the last of /security/arm and /security/disarm was arm. |
| RequestTexts.BrightnessFollowsTexts | src/server/Server.cpp:292-298 | Over any run of request texts the brightness is the number of the last valid /light/brightness request, cut to 0..100. |
| RequestTexts.TemperatureFollowsTexts | src/server/Server.cpp:337-343 | Over any run of request texts the target is the temperature of the last valid /thermostat/set request, clamped. |
| RequestTexts.OtherTextsChangeNothing | src/server/Server.cpp:199-411 | A run of request texts without any of those requests changes no device. |
| RequestTexts.BuiltRequestSays | src/protocol/HttpProtocol.cpp:4-89 | A request built for a path is read as saying its words, for any verb and body. |
| NetworkAgreement.BestIsContaining | src/server/Server.cpp:26-35 | After any number of initialisations the best route is that of the subnet containing the address, or none if no subnet does. |
| NetworkAgreement.FirstAndLongestMatchAgree | src/server/Server.cpp:26-35 | For every readable address either findSubnet names a subnet and the lookup returns its interface and gateway, or findSubnet says "Unknown" and the lookup returns the default route. |
| NetworkAgreement.FirstInitialisation | src/server/Server.cpp:26-35 | The routes added for a valid plan are the plan's routes and no others. |
| NetworkAgreement.ReinitialisingChangesNothing | src/server/Server.cpp:26-35 | Initialising the network again duplicates routes but changes no lookup. |
| Sessions.NetworkOnly | src/server/Server.cpp:37-42 | A new server brought up on the configured plan has fresh subnet tables and routes that agree with them. |
| Sessions.ConfiguredDeviceAddresses | src/server/Server.cpp:69-95 | The devices of the configured network get 192.168.1.2, .3, .66 and .98. |
| Sessions.DeviceMacsDiffer | src/server/Server.cpp:69-95 | The hardware addresses of the four devices are pairwise different. |
| Sessions.StartUp | src/server/Server.cpp:37-45 | A started server has four new devices at those addresses, each with its generated hardware address, a faithful cache, a network on which both tables hold the configured plan, and the default gateway set. |
| NetworkReplies.FindFailsExactly | src/network/SubnetManager.cpp:76-86 | In a table that holds a non-empty plan findSubnet throws if and only if the text is no address. |
| NetworkReplies.ArpFailsExactly | src/server/Server.cpp:426-439 | On a network that is up an ARP request throws if and only if its target is no address. |
| NetworkReplies.PingFailsExactly | src/server/Server.cpp:413-424 | On a network that is up a PING request throws if and only if its target is no address. |
| NetworkReplies.NetworkTexts | src/server/Server.cpp:200-233 | A text starting with PING, ping, ARP or arp is that command; its target is what follows the first blank without trailing blanks and line ends. |
| NetworkReplies.FatalRequests | src/server/Server.cpp:200-233 | "PING x", "ping x", "ARP x" and "arp x" are such requests. |
| NetworkReplies.SubnetFound | src/network/SubnetManager.cpp:76-86 | For every readable address findSubnet names the subnet whose block contains it, or "Unknown" if none does. |
| NetworkReplies.RouteFound | src/network/RoutingTable.cpp:47-65 | For every readable address the lookup returns the route of the subnet whose block contains it, or the default route if none does. |
| NetworkReplies.PingIsTruthful | src/server/Server.cpp:413-424 | A PING reply reports the route of the target's block; there is none exactly for a fatal request. |
| NetworkReplies.ArpIsTruthful | src/server/Server.cpp:426-439 | With a faithful cache an ARP reply reports the generated hardware address and the subnet of the target's block, and the cache stays faithful; there is none exactly for a fatal request. |
| NetworkReplies.PingReplyText | src/server/Server.cpp:413-424 | On the configured network the reply for 192.168.1.70 starts "Route: via 192.168.1.65 on Thermostat". |
| NetworkReplies.ArpReplyText | src/server/Server.cpp:426-439 | On the configured network with a faithful cache, the whole reply for 192.168.1.2. |
| Sessions.ServeOne | src/server/ClientHandler.cpp:44 | One request moves the devices as the abstract machine does, throws exactly if it is fatal, and otherwise gets that machine's answer or a truthful one. |
| Sessions.EndIsDecided | src/server/ClientHandler.cpp:34-53 | A session ends the server if and only if some message is fatal and all before it are non-empty, harmless and answered. |
| Sessions.HandleClient | src/server/ClientHandler.cpp:31-54 | Over a whole session the devices are where the abstract machine is after the processed messages, each protocol reply is that machine's answer in the state its predecessors left, and every PING and ARP reply is truthful; every processed message gets a reply except a fatal one, at which the server ends. |

## Left out

- Sockets, `Client`, `SocketSystem`, `acceptClients` and message transport: foreign calls; `HandleClient` takes the messages received and whether each reply went out as parameters.
- Several clients at once on the devices: a protocol request runs under one lock from registry lookup to answer, so an interleaving of clients is one run of commands, which is the form the run theorems have; the lock itself is not modelled.
- `Logger`, all `print*` functions and the status texts of the devices: output only; `Library` stands for the status texts, as functions of the devices' places and states.
- `ICMPHandler`: randomness, sleeping and formatting; its text is a parameter, the address test in it that can throw is modelled.
- `std::stod`: the conversion is a parameter whose results include NaN and the infinities; rounding is left out.
- The registry as a map from strings and the casts out of it: it is four fields, one for each of the four keys the code uses, so a failing cast cannot occur.
- Device names, ids, colour, thermostat mode, last alert and `simulateMotion`: no request changes them.
- Addresses of more than four octets: the fifth would be shifted by a negative amount, which C++ leaves undefined; they are excluded by `Shaped`. Prefix lengths outside 0..32 and `maxHosts` of the largest int are excluded for the same reason.
- ARP keys outside ASCII: the sign of `char` is left open by C++; they are excluded by `Ascii`.
- Which exception `std::stoi` throws, and the texts of exceptions.
- Exceptions inside pool tasks in the step model of the pool: one ends the process, which `HandleClient` states; the pool's runs are those of a process that lives.
- Calls on a destroyed pool, `pendingTasks`, and tasks that never finish: a task that runs can always finish in the model.
- `getSubnetInfo` and getters: each reads one field.
- Which sleeper a notification wakes: it is a parameter, because the library may pick any; the run theorems hold for every choice.
- RoundTrips.ResponseRoundTrip: keys, values and status-line fields with newlines are excluded, because they change which lines exist; every response the server builds is free of them.
