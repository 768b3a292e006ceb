# RCP100 control plane: a verified model

This project models seven stateful components of the RCP100 router control plane in Dafny and
proves what they are relied on for. `dafny verify dfyconfig.toml` checks all of it.

Code that updates state in place is modelled by classes and methods with loops, each proved
equal to a transition or value function; what holds over whole runs is then proved about those
functions. Files and modules have the same name, with `ChainTable.dfy` holding `Chains` and
`LeaseModel.dfy` to `DhcpPool.dfy` the DHCP server.

**Linked tables** (`Chains`, `KeyedStore`). The DHCP lease tables, the DNS request lists and the
DNS cache are intrusive singly linked lists off an array of heads. `Links` holds heads and link
fields, a ghost `Shape` the chains they form; push, unlink with a trailing pointer and search are
proved once. `KeyedStore` is the map a set of keyed records stands for.

**DHCP server** (`LeaseModel`, `LeaseDb`, `DhcpModel`, `DhcpServer`, `DhcpSafety`, `DhcpPool`,
`DhcpService`). A lease is linked into three hash tables, by MAC address, IP address and expiry.
`LeaseTable` keeps all three in step with an abstract map of leases. The message handlers of
`Server` refine the transition function `Step`. Main results: `NoDoubleGrant` states the promise
of the protocol in terms of messages alone, for arbitrary runs and reconfigurations;
`NoExpiredLeaseSurvives` and `LeaseGoesWhenSwept` settle the one-bucket-a-second expiry;
`NextFreeIsFirstInCyclicOrder` and `TopRangeIsNotCyclic` settle the address search. `DhcpService`
says when clients are answered, in plain arithmetic and over arbitrary runs.

**DHCP options** (`NetBytes`, `DhcpOptions`, `DhcpReader`). Lists of options, their encoding, the
walk that reads them back, the replies the server writes and the relay information option a relay
adds.

**Shared-memory allocator** (`SmallMemory`). A byte map in which a block of n chunks reads n, n-1,
..., 1. The skip arithmetic of the scan is right because of that countdown only, even from the
middle of a block; allocation is circular first fit and fails only when there is no room.

**MD5 and HMAC** (`Md5`, `Md5Padding`, `Md5Context`). Incremental hashing with a carry buffer and
a split bit counter equals padding and folding the whole message. The compression function is a
parameter.

**Command tree** (`CliWords`, `CliTree`, `CliFind`, `CliSpecial`, `CliAbbrev`, `CliGrants`,
`CliModes`, `CliParser`). Insertion into the tree of sibling lists and lookup by exact, special or
abbreviated token. Completion is idempotent, and every literal command ever added is found as the
node made executable for it, and one with special tokens exactly when no earlier special token
takes their text. Commands are found and executed in exactly the modes that the history of
additions grants.

**Command expander** (`Expander`). The recursive expansion of optional blocks with one shared,
truncated buffer prints one command per choice of blocks.

**Access lists** (`AclModel`, `AclTable`, `AclScript`). A history of commands fills a slot table,
the table becomes chains of packet filter rules, and the first matching rule of the chain decides
as the set of configured entries means.

**DNS proxy** (`DnsNames`, `DnsPacket`, `DnsModel`, `DnsQueue`, `DnsRun`, `DnsCacheModel`,
`DnsCache`, `DnsCacheRun`, `DnsProxyModel`, `DnsProxy`, `DnsProxyRun`, `DnsRate`, `DnsBareNames`,
`DnsAnswers`, `DnsRecords`, `DnsService`, `DnsProxyService`). Names and packets with their round
trips; the request queue over a fixed pool of 512 records; the cache with mark-and-sweep
configured entries; and the proxy that drives both. `RepliesMatchQueries` and `RepliesAreDistinct`
say that responses reach the client that asked, once; `CachedAnswersAreBacked` follows every
answer from the cache back to the query and the server response behind it. `DnsProxyService` says
what clients get: responses for ten seconds, answers for as long as they live, configured hosts
always.

## Where code and intent differ

The model follows the code. The first lemma or contract named with each difference states when
the code does what is meant, the last one gives an input on which it does not.

- The filter script covers lists 1 to 198, while list 199 can be configured
  (`AclScript.ListsBeyondTheLast`, `AclScript.List199IsOpen`).
- A range ending at 255.255.255.255 is searched upwards only (`DhcpPool.TopRangeIsNotCyclic`,
  `DhcpPool.FreeAddressIsMissed`).
- Block counts are kept in a byte, so that cells of a block of more than 255 chunks read as free
  (`SmallMemory.MarkedIsTiledIff`, `SmallMemory.AdvertisedSizeReadsFree`); a pointer into a block
  is freed as well (`SmallMemory.Bucket.Free`, `SmallMemory.InnerPointerMisleads`).
- The block loop of MD5 never ends for an input whose tail starts in the last 63 bytes below 2^32
  (`Md5Context.GuardStopsIff`, `Md5Context.GuardNeverStops`, `Md5Context.LargestInputNeverEnds`).
- The room check for option 82 leaves out its four header bytes (`DhcpOptions.AddRelayInfo`,
  `DhcpOptions.RoomCheckFallsShort`).
- The counter of the query rate limit has 16 bits and starts over after 65536 queries in a second
  (`DnsRate.RateIsLimited`, `DnsRate.LimitIsExceeded`).
- Bare names joined to the domain are looked up in dotted form among names in packet form: a host
  is missed (`DnsBareNames.BareNameIsFoundIff`, `DnsBareNames.ConfiguredHostIsMissed`), or found by
  a name that is not its own (`DnsBareNames.HostIsMistaken`).
- The packet form of a host name is stored as a string, which an empty label ends, so that the
  host "a." takes over the entry of the host "a" (`DnsCacheRun.HostsShareIff`,
  `DnsCacheRun.TrailingDotTakesOver`).
- A host name of 62 characters is stored, but a query for it passes the parser without its name and
  is never answered from that entry (`DnsPacket.HostNamesParse`, `DnsPacket.LongHostIsUnnamed`,
  `DnsAnswers.LongHostIsNeverFound`); one of 63 characters needs a byte more than the buffer for its
  packet form has (`DnsNames.BuildName`, `DnsNames.LongestNameOverflows`).
- A query whose question is not read is accepted with the query type the record held before
  (`DnsPacket.UnreadQuestionPasses`).
- The generated code looks a command up by its own text, which an earlier special token may take
  (`CliParser.AddedIsFoundIff`, `CliParser.EarlierTokenHides`).
- A server's address is cached under the type asked for, whatever its own type
  (`DnsAnswers.CachedAnswerIsRightIff`, `DnsAnswers.ZeroAddressIsTold`).
- The length reported for an answer built from a cached entry that is neither an alias nor an
  address leaves out the record header (`DnsPacket.Build`, `DnsPacket.AliasAnsweredByAddress`).
- The dotted form of the root name is cut off in front of its buffer (`DnsNames.RealName`).
- A command of optional blocks only stands for the empty command too, in front of which the
  printer looks for blanks (`Expander.EmptyIsPrintedIff`).

## Model

| member | source | states |
|---|---|---|
| `Chains.Push` | src/dhcp/exec/lease.c:36-55 | The node becomes the first of its bucket; every other chain, link and home stays as it was |
| `Chains.Unlink` | src/dhcp/exec/lease.c:57-145 | The walk with a trailing pointer takes exactly that node out of its chain; the other nodes keep their order and the other chains are untouched |
| `Chains.Find` | src/dhcp/exec/lease.c:153-183 | A node of the bucket that satisfies the test is found if and only if there is one |
| `LeaseDb.LeaseTable.constructor` | src/dhcp/exec/lease.c:32-34 | The database starts empty and consistent |
| `LeaseDb.LeaseTable.FindMac` | src/dhcp/exec/lease.c:153-167 | Finds the lease of a MAC address exactly when the abstract set of leases has one, with the record that set gives |
| `LeaseDb.LeaseTable.FindIp` | src/dhcp/exec/lease.c:169-183 | Finds a lease of an IP address exactly when some client holds that address |
| `LeaseDb.LeaseTable.Add` | src/dhcp/exec/lease.c:187-218 | Refuses a taken MAC, a taken IP and a stale expiry; otherwise all three tables gain the lease, stay consistent, and the abstract set gains exactly it |
| `LeaseDb.LeaseTable.Delete` | src/dhcp/exec/lease.c:220-226 | The lease leaves all three tables and nothing else does |
| `LeaseDb.LeaseTable.Renew` | src/dhcp/exec/lease.c:228-237 | The lease moves to the bucket of its new expiry, stays in the other tables, and its record is replaced |
| `LeaseDb.LeaseTable.Timeout` | src/dhcp/exec/lease.c:255-273 | Visiting one bucket and unlinking while walking removes exactly the leases expired by now whose expiry is congruent to now modulo 256 |
| `LeaseDb.SweepBucket` | src/dhcp/exec/lease.c:255-273 | The same on the linked tables: no lease is skipped although links are read before nodes are removed |
| `LeaseDb.UnlinkAll` | src/dhcp/exec/lease.c:220-226 | Removal keeps each remaining lease in the bucket of its key in all three tables |
| `LeaseDb.LinkAll` | src/dhcp/exec/lease.c:212-215 | Insertion keeps each lease in the bucket of its key in all three tables |
| `LeaseDb.Restamp` | src/dhcp/exec/lease.c:228-237 | Changing the expiry relinks only the expiry table |
| `LeaseModel.HashMac` | src/dhcp/exec/lease.h:52-57 | A MAC address always hashes into the 4096 buckets |
| `LeaseModel.HashIp` | src/dhcp/exec/lease.h:75-90 | An IP address always hashes into the 4096 buckets |
| `DhcpServer.Server.SearchFree` | src/dhcp/exec/dhcp_rx_server.c:208-226 | The search loop with its 32-bit counter returns the first unleased address it meets, wrapping at the largest address |
| `DhcpServer.Server.AssignIp` | src/dhcp/exec/dhcp_rx_server.c:177-229 | A reserved host address first, else the circular search from the last address assigned; the search position moves with the result |
| `DhcpServer.Server.AssignLease` | src/dhcp/exec/dhcp_rx_server.c:231-302 | Adds a twenty second reservation for the address found, or none when the range is used up or the address is taken |
| `DhcpServer.Server.Discover` | src/dhcp/exec/dhcp_rx_server.c:322-398 | State and answer of a DISCOVER: what is offered, to whom, and which lease records the transaction id |
| `DhcpServer.Server.Request` | src/dhcp/exec/dhcp_rx_server.c:503-599 | State and answer of a REQUEST: acknowledged and restamped exactly when the client holds the address under a settled or matching transaction id, refused otherwise |
| `DhcpServer.Server.Decline` | src/dhcp/exec/dhcp_rx_server.c:400-446 | A DECLINE marks the lease of the client that holds the address and changes nothing else |
| `DhcpServer.Server.Release` | src/dhcp/exec/dhcp_rx_server.c:601-643 | A RELEASE cuts the lease to twenty seconds and marks it, for the client that holds it only |
| `DhcpServer.Server.Handle` | src/dhcp/exec/dhcp_rx_server.c:694-715 | The server on its three hash tables takes the same step as the transition function, whatever the event |
| `DhcpModel.StepKeepsInv` | src/dhcp/exec/dhcp_rx_server.c:322-643 | Every event keeps addresses unshared between clients and address zero unleased |
| `DhcpSafety.RunKeepsInv` | src/dhcp/exec/dhcp_rx_server.c:322-643 | So does every run |
| `DhcpSafety.PromisesAreBacked` | src/dhcp/exec/dhcp_rx_server.c:322-643 | In every run with a monotone clock, what the messages promise a client is backed by a lease that lasts at least as long |
| `DhcpSafety.NoDoubleGrant` | src/dhcp/exec/dhcp_rx_server.c:322-643 | While a client's latest acknowledgement has not run out, and until 20 seconds after its release, its address is neither acknowledged nor offered to any other client (section 1.6 of RFC 2131) |
| `DhcpSafety.OfferThenRequest` | src/dhcp/exec/dhcp_rx_server.c:322-599 | Whatever happens between an offer and a REQUEST for it, short of messages of that client: it is acknowledged with the same address and mask if and only if the lease was not swept and a network still contains it; the lease of a new client is not swept for twenty seconds |
| `DhcpSafety.DeclinedCoolsDown` | src/dhcp/exec/dhcp_rx_server.c:322-446 | A declined or released lease gets its client no offer as long as it is in the database, whatever else happens |
| `DhcpSafety.DeclineStartsCooling` | src/dhcp/exec/dhcp_rx_server.c:400-643 | An accepted decline or release starts that time |
| `DhcpSafety.StepKeepsLease` | src/dhcp/exec/dhcp_rx_server.c:322-643 | An unexpired lease stays with its client through any event, and only that client moves its expiry |
| `DhcpSafety.LeaseGoesWhenSwept` | src/dhcp/exec/lease.c:255-273 | With ticks skipped at will the lease of a silent client goes at the first tick at or after its expiry congruent to it modulo 256, and not before |
| `DhcpSafety.NoExpiredLeaseSurvives` | src/dhcp/exec/lease.c:255-273 | With a tick every second no lease with expiry at or before the tick survives it |
| `DhcpSafety.SweepIsComplete` | src/dhcp/exec/lease.c:255-273 | If nothing expired by the last tick was left, visiting one bucket a second later leaves nothing expired |
| `DhcpSafety.OnlyZeroLeasesOutliveTheirTick` | src/dhcp/exec/dhcp_rx_server.c:503-599 | An acknowledged lease outlives its expiry past the next tick if and only if it was granted for zero seconds |
| `DhcpService.MaskedIffInBlock` | src/dhcp/exec/dhcp_rx_server.c:239-239 | Masking an address gives the network address exactly in the block of addresses that network and mask stand for |
| `DhcpService.AnswerToRequest` | src/dhcp/exec/dhcp_rx_server.c:503-599 | The answer to any REQUEST of a client with a lease, by what it names, its transaction id and the networks, with the seconds granted |
| `DhcpService.AckedClientIsAnswered` | src/dhcp/exec/dhcp_rx_server.c:503-599 | After an acknowledgement and any run without messages of its client, a REQUEST is acknowledged, under any transaction id, with the same address and mask, if and only if it names the address, the lease was not swept and a network contains it; naming another address or swept, it is refused and nothing changes |
| `DhcpService.OfferedClientIsAnswered` | src/dhcp/exec/dhcp_rx_server.c:503-599 | After an offer the same holds under the transaction id of the offer; under another one the REQUEST is refused and nothing changes |
| `DhcpService.NewClientIsServed` | src/dhcp/exec/dhcp_rx_server.c:177-398 | A DISCOVER of a new client is answered by an offer, of a free address of the range with the terms of the first network that serves it, if and only if the range has a free address within reach of the search |
| `DhcpService.ReservedClientIsServed` | src/dhcp/exec/dhcp_rx_server.c:181-193 | A client with a reserved address in that network is offered it unless it is leased |
| `DhcpService.UnservedClientIsIgnored` | src/dhcp/exec/dhcp_rx_server.c:231-302 | A new client that no network serves gets no answer, and nothing changes |
| `DhcpService.KnownClientIsServed` | src/dhcp/exec/dhcp_rx_server.c:322-398 | A client with a lease is offered it again unless it cools down or no network contains it |
| `DhcpService.AckedClientDeclines` | src/dhcp/exec/dhcp_rx_server.c:400-446 | After an acknowledgement a DECLINE that names the address marks the lease, under any transaction id, and any other changes nothing |
| `DhcpService.AckedClientReleases` | src/dhcp/exec/dhcp_rx_server.c:601-643 | After an acknowledgement a RELEASE of the address leaves the lease twenty seconds and marks it if a network contains it, and any other changes nothing |
| `DhcpService.EffectOfDecline` | src/dhcp/exec/dhcp_rx_server.c:400-446 | The same for any lease, outstanding offers included, which only their own transaction id declines |
| `DhcpService.EffectOfRelease` | src/dhcp/exec/dhcp_rx_server.c:601-643 | The same for any lease; an outstanding offer is not released |
| `DhcpPool.FirstFreeIsFirst` | src/dhcp/exec/dhcp_rx_server.c:208-226 | A search below the largest address finds the first unleased address of its interval, or none if and only if all are leased |
| `DhcpPool.NextFreeIsFirstInCyclicOrder` | src/dhcp/exec/dhcp_rx_server.c:195-229 | The address assigned is the first unleased one in cyclic order after the one assigned last |
| `DhcpPool.NoneFreeIffAllLeased` | src/dhcp/exec/dhcp_rx_server.c:195-229 | The server gives up exactly when every address of the range is leased; otherwise the result is in the range and unleased |
| `DhcpPool.TopRangeIsNotCyclic` | src/dhcp/exec/dhcp_rx_server.c:195-229 | For a range ending at the largest address the search fails exactly when the addresses from the search start on are leased: free ones below it are missed |
| `DhcpPool.FreeAddressIsMissed` | src/dhcp/exec/dhcp_rx_server.c:195-229 | A range of three addresses up to 255.255.255.255 whose free first address is not found |
| `DhcpPool.SearchMovesOn` | src/dhcp/exec/dhcp_rx_server.c:195-229 | The next search starts behind the address picked, or at the start of the range |
| `DhcpOptions.CheckOptions` | src/dhcp/exec/dhcp_rx.c:26-77 | The option walk over the packet's memory, as far as one looks, returns what a reader finds and the packet length, rejects a zero code, or has not ended |
| `DhcpOptions.EndsAlike` | src/dhcp/exec/dhcp_rx.c:39-63 | Where the walk ends it ends alike however far the memory is looked at, beyond the options array as well |
| `DhcpOptions.WalkReadsAll` | src/dhcp/exec/dhcp_rx.c:26-77 | Reading any encoded list of options, closed by the end mark, finds exactly what the list says, later options in place of earlier ones |
| `DhcpOptions.OptionsAreRecovered` | src/dhcp/exec/dhcp_rx.c:38-63 | Two lists of options with the same encoding are the same list, routers and servers included |
| `DhcpOptions.BuildReply` | src/dhcp/exec/dhcp_rx_server.c:571-586 | The writers produce the encoding of the reply's options and the end mark, in order, and report the packet length |
| `DhcpOptions.ReplyIsUnderstood` | src/dhcp/exec/dhcp_rx_server.c:378-393 | Every OFFER or ACK fits the options array whatever is configured, and reading it recovers message type, server id, lease time, mask and relay information (section 2 of RFC 2132) |
| `DhcpOptions.PutOption` | src/dhcp/exec/dhcp_rx_server.c:46-52 | Writing one option appends its encoding to those written before |
| `DhcpOptions.AddRelayInfo` | src/dhcp/exec/dhcp_rx.c:445-477 | Option 82 takes the place of the end mark behind all other options; the new packet stays within its limit if and only if there was room for the four header bytes the check leaves out, or nothing was added |
| `DhcpOptions.RoomCheckFallsShort` | src/dhcp/exec/dhcp_rx.c:299-453 | A DISCOVER that is read without complaint, has a message type and no option 82, passes the room check, and exceeds the limit with option 82 |
| `DhcpOptions.RelayInfoKeepsOthers` | src/dhcp/exec/dhcp_rx.c:445-477 | A reader of the packet with option 82 finds it at the old end and everything else unchanged (section 2.1.1 of RFC 3046) |
| `DhcpReader.TermsAreTold` | src/dhcp/exec/dhcp_rx_server.c:378-393 | A reader of a reply finds message type, server, lease time and mask under the codes 53, 54, 51 and 1 of RFC 2132 |
| `DhcpReader.ServicesAreTold` | src/dhcp/exec/dhcp_rx_server.c:70-166 | It finds routers under 3, name servers under 6, time servers under 42 and the domain name under 15, exactly those configured |
| `DhcpReader.RelayInfoIsToldBack` | src/dhcp/exec/dhcp_rx_server.c:168-175 | It finds the relay information of the request under 82 |
| `DhcpReader.AddedRelayInfoIsTold` | src/dhcp/exec/dhcp_rx.c:445-477 | A reader of a relayed packet finds under 82 suboption 1 with host name, dot and interface name |
| `DhcpReader.ReadByCode` | src/dhcp/exec/dhcp_rx.c:26-77 | What the option walk reads is what the last option under each of the codes 54, 51, 1, 50, 53 and 82 says |
| `DhcpReader.ZeroCodeIsRejected` | src/dhcp/exec/dhcp_rx.c:38-68 | Options that come to a zero code in place of the end mark are rejected |
| `SmallMemory.ChunksFor` | src/librcp/smem.c:73-85 | The chunks cover the size and one less would not |
| `SmallMemory.Bucket.constructor` | src/librcp/smem.c:87-126 | The arena starts with a free map, no live block, and all counters and positions zero |
| `SmallMemory.SkipIsSafe` | src/librcp/smem.c:244-247 | From any used cell, even in the middle of a block, the skip passes over used cells only and stays in the map |
| `SmallMemory.TiledIsDescending` | src/librcp/smem.c:191-287 | A map tiled by the countdowns of disjoint live blocks has the shape the skips rely on |
| `SmallMemory.Bucket.Scan` | src/librcp/smem.c:212-248 | The scan with its skips returns the first window of free cells, short of the strict bound |
| `SmallMemory.FirstFitIsFirst` | src/librcp/smem.c:217-217 | The window found starts at the least possible index, and none is found exactly when there is none |
| `SmallMemory.CircularFitFailsIffNoRoom` | src/librcp/smem.c:201-259 | Allocation fails if and only if no window of enough free chunks starts before the last one, for any start and fragmentation; otherwise the first in cyclic order is taken |
| `SmallMemory.MarkedIsTiledIff` | src/librcp/smem.c:233-237 | Marking a free run adds a disjoint block to the tiling if and only if it has at most 255 chunks; a larger block is live while a cell of it reads as free |
| `SmallMemory.AdvertisedSizeReadsFree` | src/librcp/smem.c:31-36 | A request for 4096 bytes, the largest size advertised, leaves the first cell of its block reading as free |
| `SmallMemory.ClearUndoesMark` | src/librcp/smem.c:282-285 | Freeing a block undoes its allocation byte for byte |
| `SmallMemory.ClearedIsTiled` | src/librcp/smem.c:282-285 | Freeing a live block leaves the other blocks tiled as they were |
| `SmallMemory.ClearedIsDescendingIff` | src/librcp/smem.c:269-285 | Freeing any used cell keeps the map in shape if and only if the cell is the start of a block |
| `SmallMemory.Bucket.Take` | src/librcp/smem.c:229-241 | A free run becomes a live block; the map stays tiled exactly for at most 255 chunks |
| `SmallMemory.Bucket.Alloc` | src/librcp/smem.c:191-259 | At most one restart; on success exactly one live block is added, on failure nothing changes but the failure counter; live blocks stay tiled and equal to allocations minus frees exactly if the block has at most 255 chunks |
| `SmallMemory.Bucket.Free` | src/librcp/smem.c:261-287 | Freeing a live block start removes exactly that block; a pointer into a block frees its end only and leaves a map on which scans go astray; anything outside the map or free is refused without effect |
| `SmallMemory.StartOfBlockIff` | src/librcp/smem.c:269-285 | A used cell is the start of a live block exactly when the cell before it is free or ends a block |
| `SmallMemory.InnerPointerMisleads` | src/librcp/smem.c:282-285 | A freed inner pointer that leaves a count leading past free cells |
| `Md5.FoldAppend` | src/librcp/md5.c:139-140 | Hashing whole blocks in two stretches is hashing them in one |
| `Md5.CounterAdds` | src/librcp/md5.c:125-128 | The two-word counter with its carry detection is 8 times the byte count modulo 2^64 (section 3.2 of RFC 1321) |
| `Md5.DecodeEncode` | src/librcp/md5.c:279-314 | Decoding an encoded word gives the word back |
| `Md5.EncodeDecode` | src/librcp/md5.c:279-314 | Encoding four decoded bytes gives the bytes back |
| `Md5.PadLength` | src/librcp/md5.c:168-169 | Padding brings every length to 56 modulo 64 with 1 to 64 bytes |
| `Md5Padding.PaddedBits` | src/librcp/md5.c:157-178 | In bits the padded message is the message, a one, fewer than 512 zeros up to 448 modulo 512, and the count of its bits in eight bytes, least significant first (section 3.1 and 3.2 of RFC 1321) |
| `Md5Padding.InitialBytes` | src/librcp/md5.c:100-108 | The start value reads 01 23 45 67 and so on in bytes (section 3.3 of RFC 1321) |
| `Md5Context.Context.constructor` | src/librcp/md5.c:98-108 | A new context stands for the empty message |
| `Md5Context.Context.HashBlocks` | src/librcp/md5.c:139-140 | The block loop hashes exactly the full blocks, for every input on which it ends |
| `Md5Context.GuardStopsIff` | src/librcp/md5.c:139-139 | At the end of the input the 32-bit comparison stops the loop if and only if the counter plus 63 does not run over |
| `Md5Context.GuardNeverStops` | src/librcp/md5.c:139-139 | Where it does not stop there it never does: the guard holds for every value the counter takes |
| `Md5Context.LargestInputNeverEnds` | src/librcp/md5.c:139-139 | With one byte waiting, an input of 2^32 - 1 bytes never ends |
| `Md5Context.Context.Update` | src/librcp/md5.c:114-151 | The context stands for the message so far followed by the new piece, for every input on which the block loop ends |
| `Md5Context.Context.Final` | src/librcp/md5.c:156-181 | The digest is that of padding and folding the whole message; the context is wiped (sections 3.1 to 3.5 of RFC 1321) |
| `Md5Context.HashPieces` | src/librcp/md5.c:114-181 | However a message is cut into pieces, the digest is that of the whole |
| `Md5Context.Pads` | src/http/auth.c:72-82 | Both pads are the key filled up with zeros and masked byte by byte |
| `Md5Context.HmacMd5` | src/http/auth.c:36-103 | The keyed hash equals the definition in section 2 of RFC 2104, for long and short keys |
| `CliWords.WordsOfSpell` | src/librcp/parser_find.c:84-86 | Splitting a spelled-out line gives back its words |
| `CliWords.WordsOfBoth` | src/librcp/parser_add.c:221-240 | Lines joined by blanks have the words of both, whatever blanks they hold, and a word is one word |
| `CliParser.Parser.FindToken` | src/librcp/parser_find.c:75-138 | Chooses a node by exact, special or unique prefix match, in that order, and appends the completed word |
| `CliParser.Parser.FindInternal` | src/librcp/parser_find.c:140-175 | The recursive walk updates node, completed line, last match and depth as the word-by-word lookup says |
| `CliParser.Parser.FindCmd` | src/librcp/parser_find.c:177-189 | The whole record after a lookup from the root depends on the tree and the line only |
| `CliFind.CompletionSelectsSame` | src/librcp/parser_find.c:75-138 | The word a token was completed to selects the same node again |
| `CliFind.CompletionIsIdempotent` | src/librcp/parser_find.c:75-189 | Looking up the completed words in the same mode gives the same node and the same completion |
| `CliFind.CompletedLineFindsSame` | src/librcp/parser_find.c:75-189 | The same for the completed line as text |
| `CliFind.LiteralIsFound` | src/librcp/parser_find.c:75-175 | A literal command whose path exists is found at the end of that path in every mode it was added for |
| `CliFind.LastIsLongestFound` | src/librcp/parser_find.c:140-175 | Whatever becomes of a lookup, the words completed are those of the longest front part that is found, and the last match is the node it leads to |
| `CliAbbrev.ExactIsTaken` | src/librcp/parser_find.c:75-90 | A word that is a visible token of the level is taken by its node |
| `CliAbbrev.AcceptedIsTaken` | src/librcp/parser_find.c:93-107 | Any other word that visible special tokens accept is taken by the first of them |
| `CliAbbrev.AbbreviationIsTakenIff` | src/librcp/parser_find.c:110-138 | Any other word is taken by a node, and completed to its token, if and only if that is the only visible token it abbreviates |
| `CliAbbrev.AmbiguousIsNotTaken` | src/librcp/parser_find.c:110-138 | A word that abbreviates two visible tokens is not taken |
| `CliAbbrev.AbbreviatedIsFound` | src/librcp/parser_find.c:75-175 | A path of literal tokens is found by unambiguous abbreviations of them |
| `CliModes.AbbreviationIsFound` | src/librcp/parser_find.c:75-189 | Every literal command added is found, and completed, by any unambiguous abbreviation of its words |
| `CliModes.WaysAgree` | src/librcp/parser_add.c:273-299 | The node at its end determines the way down from the root |
| `CliModes.FoundIff` | src/librcp/parser_add.c:221-300 | A literal command is found in a mode if and only if a command added for that mode runs through its node, or the node is the head of the tree |
| `CliModes.ExecutableIff` | src/librcp/parser_add.c:257-271 | A command may be executed in a mode if and only if it was added, with the same words, for that mode |
| `CliGrants.HistoryKept` | src/librcp/parser_add.c:431-448 | An addition keeps every command installed and no node seen or executed in a mode that no command grants |
| `CliGrants.GrantedKept` | src/librcp/parser_add.c:221-300 | Every bit of the mode of a node stems from a command whose path runs through it, every bit of its execution mode from one that ends there |
| `CliTree.DistinctOnLevel` | src/librcp/parser_add.c:249-299 | No two nodes of a level have the same token |
| `CliTree.PathKept` | src/librcp/parser_add.c:221-300 | A path that exists keeps leading to the same node whatever is added later |
| `CliParser.Parser.AddInternal` | src/librcp/parser_add.c:221-300 | The recursion ends, keeps every earlier node, gives the mode to exactly the nodes of the path, and makes exactly the node at its end executable once more, in that mode |
| `CliParser.Parser.AppendAlternative` | src/librcp/parser_add.c:283-299 | The new alternative is linked last on its level, found by its token, and in the mode given and no other |
| `CliParser.Parser.Descend` | src/librcp/parser_add.c:273-280 | The level below a node is created once, blank, and then followed |
| `CliParser.Parser.AddCmd` | src/librcp/parser_add.c:431-448 | Every command added so far stays installed, no node is in a mode that none of them grants, and the new command changes exactly its path |
| `CliGrants.InstalledKept` | src/librcp/parser_add.c:221-300 | An addition keeps every installed command installed |
| `CliParser.AddedIsFound` | buildtools/cmdparser/cmdparser.c:26-28 | Every literal command ever added is found in its mode as the very node made executable for it, as the generated add, find and bind calls rely on |
| `CliParser.AddedIsFoundIff` | buildtools/cmdparser/cmdparser.c:26-28 | A command with special tokens is found by its own text as the very node made executable for it if and only if, on each level of its path, the first special token in the mode to accept that token's text is the command's own |
| `CliParser.EarlierTokenHides` | src/librcp/parser_find.c:96-111 | A command whose special token stands behind another one that accepts its text: the lookup finds the other |
| `CliSpecial.SameEndIff` | src/librcp/parser_find.c:140-175 | Two lookups of a command end at the same node if and only if they agree on every level: the node found determines the way to it |
| `CliSpecial.SpecialIsTaken` | src/librcp/parser_find.c:75-138 | The text of a special token is taken by the first special token in the mode that accepts it, and by nothing else |
| `CliSpecial.OwnPathIsFoundIff` | src/librcp/parser_find.c:75-175 | The lookup of any path follows it to its end if and only if each special token on it is the first to accept its own text |
| `CliTree.NewLevelKeepsShape` | src/librcp/parser_add.c:273-280 | A new level has one parent, and no token on an older level changes |
| `Expander.Expansion.ParseBlock` | buildtools/cmdparser/cmdparser.c:31-50 | The branch without the block prints every command of the rest of the line, and the shared buffer is back to what it was |
| `Expander.Expansion.Parse` | buildtools/cmdparser/cmdparser.c:53-78 | Prints, behind the text in the buffer, every command the rest of the line stands for, in order |
| `Expander.Expansion.Expand` | buildtools/cmdparser/cmdparser.c:80-137 | A command without brackets is printed as it stands, one whose brackets differ in number not at all, any other as its expansions and nothing else |
| `Expander.PlainCommandAsExpanded` | buildtools/cmdparser/cmdparser.c:103-104 | Printed as it stands, a command without brackets has exactly the words of its one expansion |
| `Expander.PrintedWords` | buildtools/cmdparser/cmdparser.c:73-77 | The words of each printed command are the words chosen, whatever the text of the buffer |
| `Expander.EmptyIsPrintedIff` | buildtools/cmdparser/cmdparser.c:17-24 | The empty command, which the printer steps in front of, is among them exactly when all words are in blocks |
| `Expander.ExpandBlock` | buildtools/cmdparser/cmdparser.c:60-62 | The expansions of a line with a block first are those without it followed by those with it |
| `Expander.ExpansionsAreAllChoices` | buildtools/cmdparser/cmdparser.c:31-78 | Two to the number of blocks commands, exactly one per choice of blocks, words in their order |
| `Expander.ChoicesAreAll` | buildtools/cmdparser/cmdparser.c:31-78 | Every choice of blocks has exactly one place in the order |
| `AclModel.CompilePreservesMeaning` | src/acl/exec/netfilter.c:165-368 | The generated rule matches exactly the packets its entry stands for, for all three kinds of entry |
| `AclModel.DestinationAndStateHold` | src/acl/exec/netfilter.c:240-352 | The last options of an extended rule mean destination or output interface, port and state |
| `AclTable.Table.Find` | src/acl/exec/callbacks.c:45-90 | Finds a valid slot with exactly this entry if and only if the entry is configured |
| `AclTable.Table.FindEmpty` | src/acl/exec/callbacks.c:92-105 | Finds a slot that is not in use, or none if and only if all are |
| `AclTable.Table.AddEntry` | src/acl/exec/callbacks.c:124-211 | The set of entries gains the entry unless the table is full; slots never hold duplicates |
| `AclTable.Table.RemoveEntry` | src/acl/exec/callbacks.c:124-211 | The set of entries loses exactly this entry |
| `AclTable.Table.Clear` | src/acl/exec/callbacks.c:492-508 | The set of entries loses exactly those of the list |
| `AclTable.Table.RunAll` | src/acl/exec/callbacks.c:45-508 | A history of commands leaves the set of entries its commands mean, with slots reused at will |
| `AclTable.CountIsSize` | src/acl/exec/callbacks.c:92-105 | The table is full exactly when as many entries as slots are configured |
| `AclScript.Generate` | src/acl/exec/netfilter.c:436-482 | The nested loops over the slots print, list by list, chain, denies, permits and final drop |
| `AclScript.ChainDecidesAsConfigured` | src/acl/exec/netfilter.c:436-482 | For lists 1 to 198 and every packet the first match drops if a deny matches, else accepts if a permit matches, else drops if the list has a permit, else falls through |
| `AclScript.OnlyTheEntriesMatter` | src/acl/exec/netfilter.c:436-482 | Histories that leave the same entries lead to chains that decide alike |
| `AclScript.ListsBeyondTheLast` | src/acl/exec/netfilter.c:436-436 | A list beyond 198 lets every packet through; it decides as configured exactly for the packets no deny matches when the list has no permit |
| `AclScript.List199IsOpen` | src/acl/exec/netfilter.c:436-436 | A deny of everything on list 199 stops no packet |
| `AclScript.ChainsAreCreatedOnce` | src/acl/exec/netfilter.c:452-454 | A chain is created exactly once if its list has entries, and not otherwise |
| `AclScript.ChainsComeFirst` | src/acl/exec/netfilter.c:452-457 | No rule is appended before its chain is created |
| `DnsQueue.RequestQueue.constructor` | src/dns/exec/dns_rq.c:29-49 | 512 records, all inactive |
| `DnsQueue.RequestQueue.Find` | src/dns/exec/dns_rq.c:92-101 | Finds the first active request with the id if and only if there is one |
| `DnsQueue.RequestQueue.Enqueue` | src/dns/exec/dns_rq.c:52-90 | Moves one record to the front of the active list with the new contents, and fails exactly when all 512 are active |
| `DnsQueue.RequestQueue.Retire` | src/dns/exec/dns_rq.c:63-121 | The request leaves the active list, the others keep their order, and its record is free again |
| `DnsQueue.RequestQueue.ClearAll` | src/dns/exec/dns_rq.c:124-141 | No request stays active and every record is free |
| `DnsQueue.RequestQueue.Timer` | src/dns/exec/dns_rq.c:175-188 | Every active request loses a second and exactly those at their last are retired, although nodes move between lists during the walk |
| `DnsQueue.ListsMakePool` | src/dns/exec/dns_rq.c:23-27 | Active and inactive list together hold each record of the pool exactly once |
| `DnsModel.UnusedTidExists` | src/dns/exec/dns_client.c:25-33 | An unused id always exists, since at most 512 of 65536 are active |
| `DnsRun.RunTraced` | src/dns/exec/dns_client.c:149-170 | In every run active requests have distinct ids and each stems from its own forwarded query with that client's data |
| `DnsRun.RepliesMatchQueries` | src/dns/exec/dns_server.c:22-86 | Every response passed on answers an earlier query forwarded to the responding server, same type and name, and goes to that client's address and port under its original id |
| `DnsRun.RepliesAreDistinct` | src/dns/exec/dns_server.c:83-86 | No query is answered twice |
| `DnsRun.GoneForGood` | src/dns/exec/dns_server.c:83-86 | A query no longer pending never becomes pending again |
| `DnsRun.QueueIsBounded` | src/dns/exec/dns_rq.c:52-60 | The queue never holds more than 512 requests |
| `DnsModel.ServersTakeTurns` | src/dns/exec/dns_client.c:51-72 | A query goes to a configured server if there is one, and with two the next query goes to the other |
| `DnsRate.StepIsLimited` | src/dns/exec/dns_client.c:141-161 | A query past the cache is forwarded exactly when the 16-bit counter is within the limit and a record is free |
| `DnsRate.RateIsLimited` | src/dns/exec/dns_client.c:141-146 | Within a second at most the limit is forwarded of fewer than 65536 queries; with room in the queue the number forwarded is exact, and within the limit if and only if there are fewer than 65536 queries |
| `DnsRate.LimitIsExceeded` | src/dns/exec/dns_client.c:141-146 | A burst within one second, each id unused when drawn, that forwards two queries under a limit of one |
| `DnsRate.EverySecondIsLimited` | src/dns/exec/main.c:131-138 | The limit holds of every second, from the tick that starts it, whatever came before |
| `DnsService.QueryIsForwardedIff` | src/dns/exec/dns_client.c:48-191 | A query is forwarded, and waits ten seconds, if and only if a server is configured, the cache has no answer, the counter is within the limit and fewer than 512 requests wait |
| `DnsService.QueryWaits` | src/dns/exec/dns_rq.c:175-188 | A forwarded query waits with ten seconds less those gone by, and from the tenth second on no longer |
| `DnsService.ResponseIsPassedOn` | src/dns/exec/dns_server.c:22-86 | The response to a forwarded query, from its server under its id, is passed on to the client under its original id if and only if less than ten seconds have passed, unless the queue was cleared or the query answered |
| `DnsService.ClearedIsNotAnswered` | src/dns/exec/dns_rq.c:124-141 | Once the queue was cleared no response to an earlier query is passed on |
| `DnsProxy.Proxy.NewTid` | src/dns/exec/dns_client.c:25-33 | The id drawn is in use by no active request |
| `DnsProxy.Proxy.InCache` | src/dns/exec/dns_client.c:85-105 | The entry that answers a query of one of the three cached types, bare names joined to the domain when there is room, exactly when the abstract cache has one |
| `DnsProxy.Proxy.FromClient` | src/dns/exec/dns_client.c:48-191 | State and packet sent for a client query are those of the transition function: no server, answered from that entry under the client's id, throttled, queue full or forwarded |
| `DnsProxy.Proxy.FromServer` | src/dns/exec/dns_server.c:22-146 | State and packet sent for a server response are those of the transition function: only a response matching id, server, type and name is passed on, retired and learned |
| `DnsProxy.Proxy.Second` | src/dns/exec/main.c:131-138 | A second ages the cache and the queue and resets the rate counter |
| `DnsProxy.Proxy.ClearHosts` | src/dns/exec/callbacks.c:133-138 | Clearing leaves exactly what configuring the hosts on an empty cache gives |
| `DnsProxy.Proxy.SetHosts` | src/dns/exec/main.c:178-182 | A change of the host table marks its entries afresh |
| `DnsProxy.Proxy.DropRequests` | src/dns/exec/callbacks.c:96-101 | Switching the proxy off gives up every pending request |
| `DnsBareNames.RunStartsShort` | src/dns/exec/dns_cache.c:62-76 | Over every run whose responses carry parsed names, every cached name starts with a label length below 64 |
| `DnsBareNames.BareNameIsFoundIff` | src/dns/exec/dns_client.c:88-105 | After any run a bare name is answered from the cache if and only if it is too long to be joined to the domain and its packet form is cached, or its first byte is below 64 and the joined text is, as a packet form, the name of an entry |
| `DnsBareNames.LetterNameIsFoundIff` | src/dns/exec/dns_client.c:88-105 | A bare name starting with a letter is found only if it is too long to be joined |
| `DnsBareNames.HostIsMistaken` | src/dns/exec/dns_client.c:88-105 | A query for a bare digit answered with the address of another host: with that host's name as the domain, the digit is the length byte of its label |
| `DnsBareNames.ConfiguredHostIsMissed` | src/dns/exec/dns_client.c:88-105 | A run that configures a host and asks for it by its bare name: the query is forwarded although the packet form is cached |
| `DnsPacket.VerifiedNameStartsShort` | src/dns/exec/dns_pkt.c:184-210 | A query name taken from a packet, as a string, starts with a label length from 1 to 63, or is that of the root |
| `DnsProxyRun.QueueFollows` | src/dns/exec/dns_client.c:48-191 | The queue inside the proxy goes through the same run as a queue alone, so that its properties carry over |
| `DnsProxyRun.RepliesMatchQueries` | src/dns/exec/dns_server.c:22-86 | In the whole proxy every response passed on answers an earlier query of that client |
| `DnsProxyRun.CachedAnswersAreBacked` | src/dns/exec/dns_client.c:105-137 | Every learned entry a query is answered from was the response, less than its time to live and less than 900 seconds ago, to an earlier query, same type and name, passed on to the server it came from |
| `DnsProxyService.ResponseIsPassedOn` | src/dns/exec/dns_server.c:22-86 | In the whole proxy the response to a forwarded query is passed on if and only if less than ten seconds have passed, unless all requests were given up or the query answered |
| `DnsProxyService.LearnedIff` | src/dns/exec/dns_server.c:88-145 | What is learned from a response, and with which time to live, flags and address: good answers of types 1, 5 and 28 that live ten seconds or more |
| `DnsProxyService.QualifiedIsFoundIff` | src/dns/exec/dns_client.c:85-137 | A query that names its domain is answered from the cache if and only if its packet name and type are cached |
| `DnsProxyService.AnswerIsToldAgain` | src/dns/exec/dns_client.c:105-137 | A learned answer is told to every client that asks the same, with the time that is left, as long as it lives, unless the cache is cleared or a host configured for the name |
| `DnsProxyService.HostIsTold` | src/dns/exec/dns_client.c:105-137 | A configured host is told, with 3600 seconds, to every client that asks for its address by the full name, until the hosts are configured anew |
| `DnsProxyService.ClearForgets` | src/dns/exec/callbacks.c:133-138 | Clearing leaves nothing but the configured hosts in the cache |
| `DnsAnswers.LearnedAddressIsToldIff` | src/dns/exec/dns_pkt.c:100-117 | The packet built from an entry learned from an address is accepted and gives that address if and only if the type of the answer was the type asked for; otherwise it gives the address zero |
| `DnsAnswers.CachedAnswerIsRightIff` | src/dns/exec/dns_client.c:105-137 | Over every run a client answered from a learned address gets, under its own id, the address of an earlier response to the same question if and only if that response was of the type asked for |
| `DnsAnswers.ZeroAddressIsTold` | src/dns/exec/dns_server.c:124-128 | An IPv4 query whose first answer was an IPv6 address; the next client is told 0.0.0.0 |
| `DnsCacheModel.HashName` | src/dns/exec/dns_cache.c:32-40 | A name always hashes into the 1024 buckets |
| `DnsCache.AnswerCache.constructor` | src/dns/exec/dns_cache.c:26-29 | The cache starts empty |
| `DnsCache.AnswerCache.Find` | src/dns/exec/dns_cache.c:42-60 | Finds the entry of a name and type exactly when the abstract map has one |
| `DnsCache.AnswerCache.Add` | src/dns/exec/dns_cache.c:62-76 | The map gains exactly this entry |
| `DnsCache.Remove` | src/dns/exec/dns_cache.c:78-109 | Exactly this entry is unlinked from its bucket |
| `DnsCache.AnswerCache.Learn` | src/dns/exec/dns_server.c:88-145 | Answers with errors, short lives or other types are not cached, long lives are cut to 900 seconds, present entries win |
| `DnsCache.AnswerCache.Timer` | src/dns/exec/dns_cache.c:163-198 | Every dynamic entry loses a second, those at their last and the unmarked static ones go, although entries are unlinked during the walk |
| `DnsCache.AnswerCache.AddStatic` | src/dns/exec/dns_cache.c:222-292 | The address entry of the host's name, read as a string from its 64 byte buffer, becomes static with the configured address, new or in place of a learned one |
| `DnsCache.AnswerCache.UpdateStatic` | src/dns/exec/dns_cache.c:294-320 | Clearing all markers and adding the hosts one by one gives the entries the host list means |
| `DnsCacheRun.StepKeepsInv` | src/dns/exec/dns_cache.c:163-320 | Every event keeps learned entries at 1 to 900 seconds and static ones as address entries without alias |
| `DnsCacheRun.NeverWraps` | src/dns/exec/dns_cache.c:187-187 | Over every run the unsigned decrement never wraps around |
| `DnsCacheRun.EntryCountsDown` | src/dns/exec/dns_cache.c:163-198 | A learned entry has its time to live less the ticks since, whatever else happens to the cache |
| `DnsCacheRun.GoneAfterItsTicks` | src/dns/exec/dns_cache.c:163-198 | An entry learned with T seconds that stays dynamic is gone at exactly the T-th tick |
| `DnsCacheRun.AddedStatics` | src/dns/exec/dns_cache.c:311-317 | After adding a list of hosts each stored name has the address of the last host stored under it and all other entries are as before |
| `DnsCacheRun.ConfiguredAfterTick` | src/dns/exec/dns_cache.c:294-320 | One tick after the hosts were configured the static entries are exactly theirs, the last of those stored under one name wins, each overriding what was learned; unrelated dynamic entries have only aged |
| `DnsCacheRun.HostsShareIff` | src/dns/exec/dns_cache.c:230-285 | Two hosts share an entry if and only if their names agree up to the first empty label; different names without empty labels never do |
| `DnsCacheRun.TrailingDotTakesOver` | src/dns/exec/dns_cache.c:230-268 | The hosts a and a. are configured; one entry is left, with the second address |
| `DnsNames.ZeroIffEmpty` | src/dns/exec/dns_cache.c:230-254 | In the packet form of a host name the zero bytes are exactly the empty labels |
| `DnsNames.StringOfLabelForm` | src/dns/exec/dns_cache.c:230-285 | As a string, the packet form of a host name is that of its part in front of the first empty label |
| `DnsNames.ReadString` | src/dns/exec/dns_cache.c:257-257 | The bytes of the buffer up to the first zero |
| `DnsNames.BuildName` | src/dns/exec/dns_cache.c:230-254 | The one-pass conversion writes the packet form of the name, a final zero and nothing behind it; that fits the buffer of 64 bytes if and only if the name has less than 63 |
| `DnsNames.LongestNameOverflows` | src/dns/exec/dns_cache.c:231-254 | A host name of 63 letters, which the command line accepts, takes 65 bytes |
| `DnsNames.RealName` | src/dns/exec/dns_pkt.c:148-170 | Decoding yields the dotted form, and fails exactly when the labels together are too long; the buffer is cut off in front of its start exactly for the root name |
| `DnsNames.LabelFormDecodes` | src/dns/exec/dns_pkt.c:148-170 | Decoding the packet form of any dotted name of at most 62 bytes without empty labels gives that name |
| `DnsNames.DottedEncodes` | src/dns/exec/dns_cache.c:230-254 | Encoding the dotted form of a packet name without dots in labels gives the packet name back |
| `DnsNames.LabelFormIsInjective` | src/dns/exec/dns_cache.c:230-254 | Different names have different packet forms |
| `DnsPacket.GetNameLen` | src/dns/exec/dns_pkt.c:184-210 | The length of the name in the packet with its final zero, or 0 on a compression pointer, past the packet or when too long |
| `DnsPacket.Build` | src/dns/exec/dns_pkt.c:57-120 | The packet written is header, question and record of the entry, or the stored alias response under the new id; the reported length is the length written exactly for aliases and the two address types |
| `DnsPacket.BuiltPacketVerifies` | src/dns/exec/dns_pkt.c:340-467 | Taking apart a packet built from an A or AAAA entry recovers id, name, type, flags, time to live and address (section 4.1 of RFC 1035) |
| `DnsRecords.ChainTtl` | src/dns/exec/dns_pkt.c:235-333 | The time to live of a chain of aliases and addresses is the least of its records; the chain is rejected if and only if it does not end within the packet |
| `DnsRecords.CutAnswerIsRejected` | src/dns/exec/dns_pkt.c:340-467 | A built answer cut anywhere behind its name is rejected, and only then |
| `DnsRecords.HostAnswerInBytes` | src/dns/exec/dns_pkt.c:57-120 | The answer for a configured host, byte by byte |
| `DnsPacket.SpanOfName` | src/dns/exec/dns_pkt.c:184-210 | The span of a well-formed name followed by a zero is its length |
| `DnsPacket.HostNamesParse` | src/dns/exec/dns_pkt.c:184-210 | The parser keeps a host name in a query if and only if it has less than 62 characters, and the empty name otherwise |
| `DnsPacket.UnreadQuestionPasses` | src/dns/exec/dns_pkt.c:363-376 | A packet with several questions, or one with an unacceptable name, is accepted, with an empty name and the query type the record held before |
| `DnsPacket.LongHostIsUnnamed` | src/dns/exec/dns_pkt.c:363-376 | So is a query for any host name of 62 characters |
| `DnsAnswers.LongHostIsNeverFound` | src/dns/exec/dns_client.c:88-105 | Such a query is looked up under the domain and, with any domain the command line accepts, never answered from the entry of that host |
| `DnsPacket.AliasAnsweredByAddress` | src/dns/exec/dns_pkt.c:87-117 | An alias query answered by an address is cached, and the packet built from it is reported ten bytes short |

## Left out

- LeaseDb: leases live in a map from address to record and link fields in maps from node to node; the address of a new lease is a parameter, and a failing memory allocator is not modelled.
- DhcpServer: INFORM, ICMP probing before an offer, lease file and restart replay, administrative clearing and statistics; configuration may change arbitrarily between events instead.
- DhcpSafety.NoExpiredLeaseSurvives: networks with a zero lease time are excluded; the command line replaces a zero lease time by the default (src/dhcp/exec/callbacks_server.c:388-393), and `OnlyZeroLeasesOutliveTheirTick` shows that the condition is exact.
- DhcpModel: a MAC address is a 48-bit number, and the clock is a time stamp carried by every event.
- DhcpService: networks have a mask of leading ones and no host bits, and ranges lie within them, as the command line makes sure (src/dhcp/exec/callbacks_server.c:466-482).
- DhcpOptions.CheckOptions: options are read from a memory that goes on behind their array; a walk that never ends is one that has not ended below any limit.
- Md5Context.Context.Update: requires the unhashed tail not to start within 64 bytes of 2^32, as the block loop never ends otherwise; `GuardNeverStops` shows that this is exact. `HashBlocks` requires the same, and `HashPieces` of each piece.
- Md5: the 64 rounds of the compression function are a parameter, as nothing but determinism matters here.
- CliParser: a mode is a set of bit numbers, nodes are places in a growing pool; help texts, owners, output modifiers, the list of ambiguous words and the line length limit are left out.
- CliParser.Parser.AddCmd: requires a mode that is not empty, since with an empty one the retry never sees the node it made and the recursion has no end; `CreatedNodeIsSeenIff` shows that this is exact. `AddInternal` requires the same.
- CliFind: the test of a special token against a text is an arbitrary function.
- Expander: brackets do not nest and close in order; the tokens of the text are at hand, tabs count as part of a word, and the limit of the line buffer is left out.
- AclTable: the parsing of command arguments, interface bindings, address translation and the printer of the configuration.
- DnsQueue: sockets and random ports; clearing all requests is modelled as retiring the first one until none is left, which leaves both lists as the code does.
- DnsProxy.Proxy.NewTid: the random source is a sequence of draws that contains an unused id; `UnusedTidExists` shows that there is one to draw.
- DnsCache.AnswerCache.AddStatic: the freed alias of an overridden entry is also forgotten, as the code means to; names have less than 63 bytes, since the packet form of a longer one does not fit its buffer: `LongestNameOverflows` shows that this is exact for the 63 bytes the host table holds.
- DnsCache.AnswerCache.UpdateStatic: requires host names of less than 63 bytes, for the same reason.
- DnsProxy.Proxy.SetHosts: requires host names of less than 63 bytes, for the same reason.
- DnsProxy.Proxy.ClearHosts: requires host names of less than 63 bytes, for the same reason.
- DnsCacheRun.ConfiguredAfterTick: holds in the code for host names of less than 63 bytes; what a longer one overwrites behind its buffer is not part of this model. So for `AddedStatics`.
- DnsPacket: the counters of record types; the questions of a packet with several, which the code does not read.
- DnsProxyModel: the names in events are the strings the code sees, which a zero byte inside a label cuts short; `CachedAnswerIsRightIff` is about names that are whole.
- Terminal, web pages, routing protocols, interprocess messages and logging.
