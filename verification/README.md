# Proofs about the libevent cores

A Dafny model of the stateful algorithms of the libevent sources under `ios/Pods/libevent`, with proofs that they do
what they are for. Code that changes objects in place is modelled by classes and methods that do the same steps on the
same fields; each method is proved against a specification on values (byte sequences, sets, queues, maps), and the
properties that span operations are proved about those values.

`dafny verify dfyconfig.toml` checks everything.

## The parts

**Buffers** (`Evbuffer*.dfy`). A buffer is a linked list of partly filled chains with `last_with_datap`, a link to the
last chain that holds data: the head link or some chain's `next`. `EvbufferCore.Evbuffer.Valid` is the invariant that
`evbuffer-internal.h:86-102` states. Every operation is proved to be the plain operation on the flat bytes, moves
between two buffers keep the two lists disjoint, and `EvbufferRun.RunAll` carries this over any run of operations.
Searching and line splitting are exact over any number of chains.  `EvbufferRefusal.dfy` builds the buffers on which
reservations fail.

**DNS names and responses** (`Dns*.dfy`). `Denotes` says what bytes at a position mean; it is independent of both the
encoder and the parser. The parser is exact against it, and ends on every packet. `DnsEncode.Code` and
`DnsMessage.Drafted` are the encoding of a name and of a message as values: every entry of the label table leads to its
name while names are still being written, so compression preserves meaning for whole responses. `DnsReplies.dfy` says
exactly when a response is complete, what a truncated one holds, and when bytes are written behind the buffer.
`MessageAt` tells a complete response byte by byte with arithmetic alone.

**DNS requests** (`Request*.dfy`). Circular rings of requests behind an array of heads. `RequestState.Good` is
conservation: one place for every request, in flight in the ring of its id, and all counters right. Submitting,
finishing, pumping, moving requests off a nameserver that failed, and resizing keep it. `PickedOn` is the rotation of
the nameservers over any number of picks.

**Event map, change list and kqueue** (`Changelist.dfy`, `EventMap.dfy`). `Consistent` ties together the events of
every descriptor, the counts, the pending changes and the kernel's filters; a dispatch makes the kernel watch exactly
what the events ask for.

**Event queues and common timeouts** (`Event{State,Steps,Order,Meaning,Timers,Run,Base}.dfy`). `Good` is the accounting that
`event_base_assert_ok_nolock_` looks at, and more; `Watched` says that no common-timeout list is stranded.
`EventRun.NothingStranded` holds after every run of steps, a timer's callback that has started but not finished
included. `EventMeaning.dfy` says what each operation changes in flags, queues, lists and heap without the functions
that compute it, and the methods of `EventBase` promise that of their old and new states.

**Hash table** (`Hash*.dfy`). Buckets are chains of elements reached by links, as in the macros. Both ways of growing,
all operations and all walks agree with a set.

**IPv6 text** (`Inet6*.dfy`). The printer's text is the one that RFC 4291 section 2.2 describes, and the parser reads
it back.

**Tagged streams** (`Tagging*.dfy`). Integers by nibbles and tags by seven bits, both least significant group first,
over the buffers above; `Tagging.IntWire` and `TagWire` give the bytes by the digits of the number, and
`TaggingStream.Transfer` sends any list of records through a buffer.

**Rate limits** (`TokenBucket.dfy`, `RateLimit.dfy`). The refill arithmetic with its wrap-arounds, the bound on what any
obedient run moves, also by a bufferevent (`RateLimit.Transfer`), and the coupling of limit, suspension and timer. With one configuration a direction is
suspended for bandwidth no longer than for a known number of refills (`RateLimit.RunsAgain`); a change of the tick
length can break that.

## Where the code does less than it is meant to

- A space reservation of one vector (`buffer.c:1994-2008`) can name a chain that `evbuffer_commit_space` refuses:
  exactly when it skipped the last chain with data although that still had space, and took one that is not the last
  (`EvbufferExpand.ReserveSpace`, `CommitRefused`). `EvbufferRefusal.ReserveRefused` is such a run on a new buffer.
- Reserving zero bytes over two vectors or more, or reading when nothing may be read, fails an assertion exactly when
  the last chain is the last one with data, may be written and has no space (`EvbufferReserve.FullUp`,
  `EvbufferExpand.ReserveSpace`, `EvbufferReadInto.Read`). `EvbufferRefusal.NothingDies` does both.
- `evutil_inet_ntop` accepts a buffer of just the text's length and then drops the last character: the round trip holds
  if and only if the buffer is longer than the text (`Inet6.RoundTrip`).
- `HT_REPLACE` with an element that is in the table itself counts it twice. With a new key it also trusts the `next`
  field of the element: the table is sound afterwards if and only if that was null (`HashTable.Table.Replace`). An
  element that `HT_NEXT_RMV` took out still has it set (`HashWalk.PutBack`).
- `HT_GROW` lets its index go one past the primes, and reads there exactly when the table is below the last prime and
  the size is not below the last load limit (`HashTable.Table.Grow`, `BeyondPrimes`). An insertion
  never asks for so much.
- Token bucket updates do not depend on how ticks are split exactly as long as they are at most `INT_MAX` together
  (`TokenBucket.SplitUpdate`), and a limit above the maximum is clipped only by accident (`TokenBucket.Refill`). A
  negative decrement can take it there (`RateLimit.Bufferevent.DecrementLimit`, `AboveMaximum`).
- A new configuration keeps the tick of the last update, which was counted in ticks of the old length
  (`bufferevent_ratelim.c:49-71`). When the clock then seems to be k ticks behind, a limit that is used up stays so for
  those k ticks and the ones owed (`TokenBucket.BehindExact`). `RateLimit.Starved` is a bufferevent that does not read
  for 53 years. A tick of less than a millisecond is accepted, and then divided by (`TokenBucket.NoTick`).
- DNS compression pointers are exact only below 16384 (`DnsNames.PointerExact`).
- The terminating zero of a name is written without a look at the buffer's length, so a name writes one byte beyond it
  exactly when `DnsEncode.Overruns`: its last label is not empty, is written in full and ends exactly at that length
  (`NameToLabels`; `OverrunHappens`). A response does so exactly when one of its names does (`DnsReplies.SpillsExact`,
  `OverrunRequestSpills`).
- A response is cut to 512 bytes not only when it is longer, but also when a name of a record cannot be encoded. When
  fewer than 512 bytes had been drawn up by then, the rest is what the buffer held before
  (`DnsReplies.TruncatedExact`, `LongLabelTruncates`).
- A tag length of 2^31 or more is taken for a negative one (`TaggingBuffer.LengthExact`). `evtag_consume` then drops all
  that follows, or only the header and reports an error (`Consume`, `ConsumeTooMuch`); `evtag_unmarshal` reports an error
  (`Unmarshal`, `UnmarshalRefused`). A list of records comes through a buffer if and only if no payload is that long
  (`TaggingStream.Transfer`). `evtag_marshal_buffer` sends only 32 bits of a length (`BufferRoundTrip`).
- The comment at `event_tagging.c:80-94` says that the most significant nibble comes first; the code sends the least
  significant first, and the model follows the code.

## Assumptions

Allocation succeeds unless a contract mentions it; `CanAllocate` bounds what can be had. The array for a DNS response
has at least one byte behind the 1500 that the code declares, so that what is written there can be told. Every
operation is one atomic step, as under its lock, and user callbacks do not re-enter. The number of bytes a descriptor delivers, the clock, the answers of the event map to the
event base, the random transaction ids and the choice between a new and a lengthened table are parameters or arbitrary.
The kernel is a set of descriptors with filters that only batches change. The min-heap is a set with a least element.

## Model

| member | source | states |
|---|---|---|
| `EvbufferChains.ChainNew` | ios/Pods/libevent/buffer.c:156-193 | a new chain is empty and fresh, and its memory with its header is exactly the size to allocate for the request (`MemoryFor`) |
| `EvbufferChains.DoubledLeast` | ios/Pods/libevent/buffer.c:165-180 | that size is the start doubled k times, for the least k that holds the header and the request |
| `EvbufferCore.Evbuffer.ZeroChain` | ios/Pods/libevent/buffer.c:799-807 | the buffer becomes empty and valid |
| `EvbufferWrite.FreeTrailingEmptyChains` | ios/Pods/libevent/buffer.c:290-303 | drops only empty chains from the end, no byte and never a chain with data, and returns the link where the list now ends |
| `EvbufferWrite.ChainInsert` | ios/Pods/libevent/buffer.c:308-327 | the chain comes last, its bytes follow all others, and `last_with_datap` again names the last chain with data |
| `EvbufferWrite.Add` | ios/Pods/libevent/buffer.c:1729-1824 | appends exactly the bytes, or changes nothing; it succeeds if and only if the end is not frozen, the size does not overflow and memory can be had |
| `EvbufferWrite.ChainAlign` | ios/Pods/libevent/buffer.c:1912-1920 | moving the data to the start of its memory changes no byte |
| `EvbufferWrite.AddReference` | ios/Pods/libevent/buffer.c:2920-2958 | appends memory that the buffer does not own and never writes |
| `EvbufferWrite.Prepend` | ios/Pods/libevent/buffer.c:1826-1910 | puts exactly the bytes in front of all others; when it succeeds is told exactly, and also which bytes are already in front when memory runs out halfway |
| `EvbufferDrain.Drain` | ios/Pods/libevent/buffer.c:1100-1166 | drops exactly the first `len` bytes, or all; fails exactly when bytes are there and the start is frozen |
| `EvbufferDrain.Copyout` | ios/Pods/libevent/buffer.c:1183-1187 | reads the first bytes, across chains, without changing the buffer |
| `EvbufferDrain.CopyoutFrom` | ios/Pods/libevent/buffer.c:1189-1254 | reads the bytes from a pointer on; the error cases are told exactly |
| `EvbufferDrain.Remove` | ios/Pods/libevent/buffer.c:1168-1181 | what is read and what is left are together the old contents |
| `EvbufferPullup.Pullup` | ios/Pods/libevent/buffer.c:1349-1461 | the contents stay, and the first n bytes lie in the first chain's memory; null exactly when there are fewer bytes, none is wanted or memory cannot be had |
| `EvbufferMove.AdvanceLastWithData` | ios/Pods/libevent/buffer.c:703-721 | from any earlier link to a chain with data, the walk ends at the link to the last one |
| `EvbufferMove.AddBuffer` | ios/Pods/libevent/buffer.c:965-1009 | all bytes of one buffer follow those of the other, which is left empty; both are valid and own disjoint chains |
| `EvbufferMove.PrependBuffer` | ios/Pods/libevent/buffer.c:1054-1098 | all bytes of one buffer come before those of the other, which is left empty; both are valid and own disjoint chains |
| `EvbufferMove.RemoveBuffer` | ios/Pods/libevent/buffer.c:1259-1347 | exactly min(n, size) bytes move from the front of one buffer to the end of the other, and both stay valid and disjoint |
| `EvbufferReserve.ExpandFast` | ios/Pods/libevent/buffer.c:2050-2158 | contents stay, and the first n chains with free space have room for the bytes asked for; when it leaves a chain to write to is told exactly |
| `EvbufferCommit.ReadSetupVecs` | ios/Pods/libevent/buffer.c:2224-2260 | the walk never runs off the list, and its assertions hold exactly when there is a chain with free space or after the last data; the vectors name the free space in order and have the room asked for, exactly it when `exact` |
| `EvbufferExpand.ExpandSingleChain` | ios/Pods/libevent/buffer.c:1938-2046 | contents stay, the chain returned has the space in one piece, and which chain it is |
| `EvbufferExpand.ReserveSpace` | ios/Pods/libevent/buffer.c:670-701 | contents stay, the vectors have the room, and committing them will be accepted if and only if more than one was asked for or the one chosen was not beyond the first free one; exactly when it fails an assertion instead (`dies`) |
| `EvbufferExpand.CommitRefused` | ios/Pods/libevent/buffer.c:1994-2008 | a vector reserved in the chain after the last one with data can be committed exactly when that chain is the last |
| `EvbufferRefusal.ReserveRefused` | ios/Pods/libevent/buffer.c:670-791 | on a new buffer of 966 bytes, reserving 1100, 3000 and then 100 bytes gives one vector of at least 100 bytes whose commit is refused |
| `EvbufferRefusal.NothingDies` | ios/Pods/libevent/buffer.c:2224-2245 | on a buffer of one full chain, reserving nothing over two vectors and reading nothing both fail an assertion |
| `EvbufferCommit.CommitSpace` | ios/Pods/libevent/buffer.c:723-791 | accepted exactly when the vectors are the free space in order; appends exactly the filled prefixes, one after the other |
| `EvbufferReadInto.Readv` | ios/Pods/libevent/buffer.c:2312-2348 | bytes that arrive in the vectors leave contents as they were and lie in the free space in order |
| `EvbufferReadInto.CommitRead` | ios/Pods/libevent/buffer.c:2378-2403 | committing n bytes chain by chain appends exactly the bytes that were delivered |
| `EvbufferReadInto.Read` | ios/Pods/libevent/buffer.c:2283-2412 | appends exactly the bytes that the descriptor delivered and returns their number; exactly when it fails an assertion instead (`dies`) |
| `EvbufferSearch.PtrSet` | ios/Pods/libevent/buffer.c:2622-2672 | the chain and offset of a flat index; fails exactly past the end |
| `EvbufferSearch.PtrAdd` | ios/Pods/libevent/buffer.c:2645-2668 | the pointer so many bytes on; fails exactly past the end or on overflow |
| `EvbufferSearch.PtrSubtract` | ios/Pods/libevent/buffer.c:2602-2620 | the pointer so many bytes back, across chains; fails exactly before the start |
| `EvbufferSearch.FindEolChar` | ios/Pods/libevent/buffer.c:1495-1520 | chunks of 128 bytes give the first CR or LF, whatever the chunks |
| `EvbufferSearch.Scan` | ios/Pods/libevent/buffer.c:1473-1493 | the first hit at or after a pointer across all chains, or none when there is none |
| `EvbufferSearch.PtrMatches` | ios/Pods/libevent/buffer.c:2674-2712 | true if and only if the pattern lies at the pointer, over any number of chains |
| `EvbufferSearch.SearchRange` | ios/Pods/libevent/buffer.c:2720-2782 | the least place from `start` on where the pattern lies and ends by `end`; not found exactly when there is none |
| `EvbufferReadln.Strspn` | ios/Pods/libevent/buffer.c:1544-1581 | the length of the whole run of CR and LF, across chains |
| `EvbufferReadln.SearchEol` | ios/Pods/libevent/buffer.c:1596-1684 | the first line end of the style at or after `start`, with its exact length, a CR before an LF included even in another chain |
| `EvbufferReadln.Readln` | ios/Pods/libevent/buffer.c:1686-1723 | old contents are line, terminator and new contents, the terminator being the first; nothing changes when there is none |
| `EvbufferReadln.LinesAreClean` | ios/Pods/libevent/buffer.c:1637-1675 | lines read in LF or CRLF style hold no LF, those in ANY style no CR or LF, and the whole run goes |
| `EvbufferRun.RunAll` | ios/Pods/libevent/buffer.c:965-1910 | any run of add, prepend, drain, remove, pullup and the three moves, over two buffers in both directions, does the same as on two byte sequences and reads the same bytes |
| `EvbufferRun.Conserved` | ios/Pods/libevent/buffer.c:965-1910 | over every run the bytes held, read and drained are, as a multiset, those held at the start and those that went in |
| `DnsNames.JoinLabels` | ios/Pods/libevent/evdns.c:1614-1678 | splitting a name at dots and joining it again gives the name |
| `DnsNames.PointerExact` | ios/Pods/libevent/evdns.c:1632-1641 | a compression pointer leads back to its position if and only if that is below 16384 |
| `DnsNames.DenotesOne` | ios/Pods/libevent/evdns.c:976-1030 | the bytes at a position denote at most one name, with one number of hops |
| `DnsNames.HopsBounded` | ios/Pods/libevent/evdns.c:1003-1006 | every name that can be read at all takes no more hops than the packet has bytes, so the limit refuses only loops |
| `DnsNames.NameParse` | ios/Pods/libevent/evdns.c:976-1030 | ends on every packet, pointer loops included; succeeds exactly on readable names that fit with their terminator, with that name and the index just past it |
| `DnsEncode.LabelTable.GetPos` | ios/Pods/libevent/evdns.c:1572-1583 | the position of the first entry for the name, or -1 exactly when there is none |
| `DnsEncode.LabelTable.Add` | ios/Pods/libevent/evdns.c:1585-1601 | appends an entry; a table of 128 entries stays as it is |
| `DnsEncode.WritingPointer` | ios/Pods/libevent/evdns.c:1632-1641 | a pointer to any entry of the table stands for the rest of the name |
| `DnsEncode.CodeExact` | ios/Pods/libevent/evdns.c:1614-1678 | when a name is encoded, has a label too long or does not fit, each by an if and only if, how many bytes it takes, and that the last byte lies beyond the limit exactly when the name overruns |
| `DnsEncode.OverrunHappens` | ios/Pods/libevent/evdns.c:1671-1676 | the name "ab" takes four bytes of a buffer of three |
| `DnsEncode.CodeMeans` | ios/Pods/libevent/evdns.c:1614-1678 | compression preserves meaning: the encoded bytes denote the name, and every entry of the table, old and new, leads to its name |
| `DnsEncode.Abbreviated` | ios/Pods/libevent/evdns.c:1632-1641 | a name that is in the table takes two bytes, with the top two bits set and the position of the first entry for it below them |
| `DnsEncode.CodeLearns` | ios/Pods/libevent/evdns.c:1636-1661 | a name that is written in full can be pointed at afterwards, as long as the table has room |
| `DnsEncode.GoodNotLong` | ios/Pods/libevent/evdns.c:1649-1666 | a name whose labels are all good is never refused for a label |
| `DnsEncode.SizeShrinks` | ios/Pods/libevent/evdns.c:1614-1678 | the exact uncompressed size of a name; compression never takes more, unless the name is empty or ends with a dot and a stored empty name is pointed at, and then it takes one byte more |
| `DnsEncode.NameToLabels` | ios/Pods/libevent/evdns.c:1614-1678 | the loops write exactly the encoding, leave all other bytes, return its end or the error, and go one byte beyond the buffer's length if and only if the name overruns |
| `DnsEncode.ParsesBack` | ios/Pods/libevent/evdns.c:976-1030 | parsing where a name was written gives exactly that name and the index just past its encoding |
| `DnsMessage.DraftedMeans` | ios/Pods/libevent/evdns.c:1933-1983 | however the names were compressed against each other, every name field of the message denotes its name |
| `DnsMessage.DraftedPlanned` | ios/Pods/libevent/evdns.c:1933-1983 | a draft that gets through in a buffer is the message as it is without one, and any message that fits gets through |
| `DnsMessage.PlannedExact` | ios/Pods/libevent/evdns.c:1614-1678 | there is a message exactly when every name can be encoded where it stands |
| `DnsMessage.CompleteExact` | ios/Pods/libevent/evdns.c:1906-1984 | a draft gets through and takes at most so many bytes if and only if every name can be encoded and the message takes at most so many |
| `DnsReplies.FormatResponse` | ios/Pods/libevent/evdns.c:1906-2001 | the appends and names, in place in the buffer, give exactly the reply of `Response`, also when they run over; the bytes of a complete one: identifier, flags with the response bit and the error, the four counts, and after them the questions and the three sections, with type, class, TTL, length and data behind each name, every number high byte first |
| `DnsReplies.CompleteResponse` | ios/Pods/libevent/evdns.c:1984-1987 | the reply is complete if and only if every name can be encoded and the message takes at most 512 bytes, and then it is the message |
| `DnsReplies.FullHolds` | ios/Pods/libevent/evdns.c:1933-1983 | a complete reply holds every field of the request, each name denoted where it stands |
| `DnsReplies.FullMessage` | ios/Pods/libevent/evdns.c:1906-1984 | those bytes for every complete reply, told by arithmetic on the bytes alone |
| `DnsReplies.TruncatedPrefix` | ios/Pods/libevent/evdns.c:1984-1997 | a truncated reply is the first 512 bytes drawn up, with the truncation bit, if so many were drawn up |
| `DnsReplies.TruncatedExact` | ios/Pods/libevent/evdns.c:1984-1997 | a truncated reply is free of what was in the buffer before if and only if at least 512 bytes had been drawn up |
| `DnsReplies.LongLabelTruncates` | ios/Pods/libevent/evdns.c:1955-1957 | an answer with a label of 64 bytes gives a truncated reply whose bytes after the header are those that the buffer held before |
| `DnsReplies.SpillsExact` | ios/Pods/libevent/evdns.c:1671-1676 | the draft goes one byte beyond the buffer if and only if one of its names overruns |
| `DnsReplies.BehindBuffer` | ios/Pods/libevent/evdns.c:1671-1676 | never more than that one byte is written beyond the buffer, and none unless the draft goes beyond it |
| `DnsReplies.OverrunRequestSpills` | ios/Pods/libevent/evdns.c:1671-1676 | a response for which a zero is written one byte beyond the buffer |
| `DnsReplies.ResponseParsesBack` | ios/Pods/libevent/evdns.c:976-1030 | every name in a complete response, of questions, owners and record data, parses back as it was given, exactly from where it starts to where its field ends, whatever was compressed against what |
| `RequestRings.Insert` | ios/Pods/libevent/evdns.c:2754-2768 | a ring with the request at its tail |
| `RequestRings.Remove` | ios/Pods/libevent/evdns.c:2716-2751 | the same ring without the request, in order, and the head moved on if it was the request |
| `RequestState.EnteredGood` | ios/Pods/libevent/evdns.c:2857-2875 | a submitted request keeps every request in one place and all counters right |
| `RequestState.LeftGood` | ios/Pods/libevent/evdns.c:652-668 | a finished request keeps the same |
| `RequestState.SwappedGood` | ios/Pods/libevent/evdns.c:548-557 | changing a request's nameserver keeps the same, with both nameservers' counts |
| `RequestState.PromotedInfo` | ios/Pods/libevent/evdns.c:746-774 | pumping promotes those that waited longest, in order, each with its own id and nameserver, and no other request changes |
| `RequestState.PromotedRings` | ios/Pods/libevent/evdns.c:746-774 | the promoted requests follow, in the order they waited, what is in the rings that their ids ask for |
| `RequestState.RehashedGood` | ios/Pods/libevent/evdns.c:3425-3454 | dealing all rings out anew keeps every request in exactly the ring of its id |
| `RequestTable.EvdnsBase.Conserved` | ios/Pods/libevent/evdns.c:2715-2768 | in every valid state each request is in the waiting ring, or in flight in the ring trans_id % n only; both counters are the ring sizes and the nameservers' counts add up to the number in flight |
| `RequestTable.EvdnsBase.Submit` | ios/Pods/libevent/evdns.c:2857-2875 | with a nameserver to the end of the ring its id asks for, otherwise to the end of the waiting ring; no other ring and no other request changes, and counters follow |
| `RequestTable.EvdnsBase.Leave` | ios/Pods/libevent/evdns.c:652-670 | takes the request out of its place in the one ring it is in, whose order stays; no other ring changes, and exactly the counters that counted it are adjusted |
| `RequestTable.EvdnsBase.Finish` | ios/Pods/libevent/evdns.c:652-710 | the request is gone and the waiting ring has been pumped until a limit, its end or the lack of a nameserver, each promoted request going to the next nameserver in turn that is up |
| `RequestTable.EvdnsBase.PickNameserver` | ios/Pods/libevent/evdns.c:1349-1382 | from the head of the ring on the first nameserver that is up, everything passed over being down, and the head ends behind it; the next in turn when none is up; its assertion holds |
| `RequestTable.EvdnsBase.Pump` | ios/Pods/libevent/evdns.c:746-774 | promotes a prefix of the waiting ring and stops only when enough are in flight, none waits or there is no nameserver; each promoted request is on the nameserver picked for it, which is the first one up from where the head stood after the one before, and goes to the end of the ring its new id asks for |
| `RequestTable.EvdnsBase.SwapNs` | ios/Pods/libevent/evdns.c:548-557 | moves one request between nameservers' counts, and nothing else of any request changes; the assertion that the old count is positive holds |
| `RequestTable.EvdnsBase.NameserverFailed` | ios/Pods/libevent/evdns.c:561-619 | marks it down, and every request on it not yet sent is then on a nameserver that is up, if there is one, picked in turn in the order of the rings; nothing else changes |
| `RequestTable.EvdnsBase.SetMaxRequestsInflight` | ios/Pods/libevent/evdns.c:3425-3454 | every request in flight is in exactly ring id % n of (max + 4) / 5 = n new rings, and no request, id, nameserver, waiting place or counter is lost |
| `Changelist.AddOk` | ios/Pods/libevent/evmap.c:272-349 | adding an event keeps counts, change list and kernel set consistent |
| `Changelist.DelOk` | ios/Pods/libevent/evmap.c:353-417 | deleting an event keeps counts, change list and kernel set consistent |
| `Changelist.BatchEffect` | ios/Pods/libevent/kqueue.c:204-247 | the batch turns every changed mode into what its change says and leaves every other |
| `Changelist.BatchExact` | ios/Pods/libevent/kqueue.c:281-287 | coalescing is exact: after the batch the kernel watches what the counts ask for and the list can be emptied |
| `Changelist.BatchDeletesExisting` | ios/Pods/libevent/evmap.c:894-946 | the batch never deletes a filter that the kernel does not have |
| `Changelist.RebuiltOk` | ios/Pods/libevent/evmap.c:603-634 | re-adding one descriptor to an empty kernel keeps the consistency |
| `EventMap.IoBase.MakeSpace` | ios/Pods/libevent/evmap.c:204-232 | the slot exists afterwards, no event is lost, and it fails only for slots beyond the largest table |
| `EventMap.IoBase.GetOrConstruct` | ios/Pods/libevent/evmap.c:830-863 | the change of the descriptor, at the end of the list with the old counts when there was none and untouched when there was; the slot's index names it |
| `EventMap.IoBase.ChangelistAdd` | ios/Pods/libevent/evmap.c:865-893 | the change records an add for the modes, whatever it recorded for them, and stays as it was for the others |
| `EventMap.IoBase.ChangelistDel` | ios/Pods/libevent/evmap.c:895-946 | the change records a delete for the modes, or nothing for those that were not there before, and stays as it was for the others |
| `EventMap.IoBase.IoAdd` | ios/Pods/libevent/evmap.c:272-349 | the event joins its descriptor's events, all others stay, and 1 is returned exactly when a mode came into use |
| `EventMap.IoBase.IoDel` | ios/Pods/libevent/evmap.c:353-417 | the event leaves its descriptor's events, all others stay, and the result says exactly whether a mode went out of use |
| `EventMap.IoBase.BuildChangesList` | ios/Pods/libevent/kqueue.c:204-247 | the array holds exactly the list's batch, grown as needed |
| `EventMap.IoBase.RemoveAll` | ios/Pods/libevent/evmap.c:778-797 | every slot's index is cleared and the list is empty |
| `EventMap.IoBase.Dispatch` | ios/Pods/libevent/kqueue.c:281-310 | after the hand-off the kernel watches exactly the modes some event asks for; no filter is deleted that was not there |
| `EventMap.IoBase.Reinit` | ios/Pods/libevent/evmap.c:603-664 | after a new kernel queue the events are as before and all is consistent again |
| `EventState.InOrderAt` | ios/Pods/libevent/event.c:3328-3358 | the event goes after all that are due no later and before all that are due later |
| `EventState.GoodTimeout` | ios/Pods/libevent/event.c:3414-3436 | inserting a timeout keeps flags, queues, order and counters in step |
| `EventState.GoodNoTimeout` | ios/Pods/libevent/event.c:3266-3286 | removing a timeout keeps them in step |
| `EventState.GoodActive` | ios/Pods/libevent/event.c:3376-3395 | activating keeps them in step |
| `EventState.SumChange` | ios/Pods/libevent/event.c:3205-3223 | the event count follows memberships of events that are not internal, one by one |
| `EventSteps.DeletedFlags` | ios/Pods/libevent/event.c:2809-2898 | a deleted event is on no queue, and no other event's flags change |
| `EventSteps.ActivatedFlags` | ios/Pods/libevent/event.c:2917-2967 | an activated event is on its active queue only, and results of a pending activation are kept |
| `EventSteps.ActivatedLaterFlags` | ios/Pods/libevent/event.c:2976-2992 | an event is on the later queue unless it was active already |
| `EventSteps.ArmedFlags` | ios/Pods/libevent/event.c:2652-2757 | the event has the new deadline, and an activation caused by the old timeout is withdrawn |
| `EventMeaning.DeletedMeans` | ios/Pods/libevent/event.c:2809-2898 | without it every queue, list and the heap are as they were, in order; all its memberships end |
| `EventMeaning.ActivatedMeans` | ios/Pods/libevent/event.c:2917-2967 | it goes to the end of the active queue of its priority, unless it was active, and leaves the later queue; nothing else moves |
| `EventMeaning.ActivatedLaterMeans` | ios/Pods/libevent/event.c:2976-2992 | it goes to the end of the later queue, unless it was active or later already; nothing else moves |
| `EventMeaning.ArmedMeans` | ios/Pods/libevent/event.c:2686-2757 | the event has exactly the new deadline and list; it is on the heap or in that list after all that are due no later and before all due later, and nowhere else; the rest keeps its order |
| `EventMeaning.ScheduledMeans` | ios/Pods/libevent/event.c:1446-1456 | the list's timer is on the heap with the deadline of the list's first event; no other event changes |
| `EventMeaning.AddedMeans` | ios/Pods/libevent/event.c:2592-2766 | everything an addition changes, told without its own steps: insertion exactly when the event map was asked, deadline and place of the timeout, an activation withdrawn exactly when it was for a timeout, and the list's timer set to the deadline when the event has become the first |
| `EventTimers.ReadyMeans` | ios/Pods/libevent/event.c:1446-1456 | what readiness means: the list's timer is on the heap no later than its first event, active or about to run, and no event of the list is due earlier |
| `EventTimers.AddedReady` | ios/Pods/libevent/event.c:2724-2740 | adding any event leaves no common-timeout list unwatched |
| `EventTimers.DeletedReady` | ios/Pods/libevent/event.c:2809-2898 | nor does deleting one |
| `EventRun.ExpiredExact` | ios/Pods/libevent/event.c:1458-1482 | the callback's loop fires exactly the first events of the list, those with deadline <= now; they follow in that order in their active queues, and nothing else changes |
| `EventRun.CalledBackMeans` | ios/Pods/libevent/event.c:1458-1482 | the same for the whole callback, flag by flag, with the timer at the deadline of the first event left, if there is one |
| `EventRun.CalledBackReady` | ios/Pods/libevent/event.c:1458-1482 | after the callback the list no longer depends on its being about to run |
| `EventRun.AllPromotedFlags` | ios/Pods/libevent/event.c:3438-3451 | every later event becomes active, none else changes and the counters stay |
| `EventRun.AllPromotedOrder` | ios/Pods/libevent/event.c:3438-3451 | they follow in the active queues of their priorities in the order of the later queue |
| `EventRun.DequeuedMeans` | ios/Pods/libevent/event.c:1633-1668 | a persistent event leaves its active queue only and keeps its timeout and insertion; another one is deleted |
| `EventRun.ListedGood` | ios/Pods/libevent/event.c:1486-1558 | a new common-timeout list with its own timer keeps the invariant |
| `EventRun.StepKeeps` | ios/Pods/libevent/event.c:1446-1482 | every step of the event base keeps flags, queues, counters and readiness |
| `EventRun.NothingStranded` | ios/Pods/libevent/event.c:1446-1482 | in every reachable state the accounting holds and no common-timeout event is stranded |
| `EventRun.StartFine` | ios/Pods/libevent/event.c:604-741 | the empty base satisfies the invariant |
| `EventBases.EventBase.InsertCommonTimeoutInOrder` | ios/Pods/libevent/event.c:3328-3358 | the loop from the end finds the place of the specification |
| `EventBases.EventBase.QueueInsertTimeout` | ios/Pods/libevent/event.c:3414-3436 | heap or list, flag and count change together |
| `EventBases.EventBase.QueueRemoveTimeout` | ios/Pods/libevent/event.c:3266-3286 | heap or list, flag and count change together |
| `EventBases.EventBase.Del` | ios/Pods/libevent/event.c:2809-2898 | the event is on no queue, in no list and not on the heap; all else stays as and where it was |
| `EventBases.EventBase.Active` | ios/Pods/libevent/event.c:2917-2967 | an event that was not active goes to the end of the active queue of its priority and leaves the later queue; all else stays |
| `EventBases.EventBase.ActiveLater` | ios/Pods/libevent/event.c:2976-2992 | an event neither active nor later goes to the end of the later queue; all else stays |
| `EventBases.EventBase.Add` | ios/Pods/libevent/event.c:2592-2766 | -1 exactly when the event map refused, and then nothing changes; otherwise all of `AddedMeans`: insertion, deadline and place of the timeout, a withdrawn activation and the list's timer |
| `EventBases.EventBase.Schedule` | ios/Pods/libevent/event.c:1446-1456 | the list's timer is on the heap with the deadline of the list's first event; an activation for its old timeout is withdrawn and no other event changes |
| `EventBases.EventBase.CommonTimeoutCallback` | ios/Pods/libevent/event.c:1458-1482 | for some k exactly the first k events of the list fire, those with deadline <= now, and follow in that order in their active queues; the rest of the list stays, and the timer waits for its first event, if there is one |
| `EventBases.EventBase.TimeoutProcess` | ios/Pods/libevent/event.c:3179-3204 | everything due on the heap fires exactly once and nothing else, the earliest first, in that order at the end of the active queues; no list is left unwatched |
| `EventBases.EventBase.MakeLaterEventsActive` | ios/Pods/libevent/event.c:3438-3451 | the later queue is emptied to the ends of the active queues of the priorities, in order; nothing but these two flags changes |
| `EventBases.EventBase.StartTurn` | ios/Pods/libevent/event.c:1633-1668 | the first event of the queue leaves it; a persistent one keeps its timeout and insertion, and another one is deleted |
| `EventBases.EventBase.InitCommonTimeout` | ios/Pods/libevent/event.c:1486-1558 | a new empty list with a fresh internal timer of the highest priority; all else stays |
| `HashTable.Table.FindP` | ios/Pods/libevent/ht-internal.h:143-155 | the link to the element with the key, or to the bucket's end exactly when no element has it |
| `HashTable.Table.Choose` | ios/Pods/libevent/ht-internal.h:321-331 | the least prime after the current one whose load limit exceeds the size; the loop stays inside the table of primes if and only if the size is below the last load limit |
| `HashTable.Table.MoveAll` | ios/Pods/libevent/ht-internal.h:332-346 | into a new array every element goes exactly once to bucket hash % length |
| `HashTable.Table.MoveInPlace` | ios/Pods/libevent/ht-internal.h:347-369 | over the lengthened array every element is exactly once in bucket hash % length, and the loop ends |
| `HashTable.Table.Grow` | ios/Pods/libevent/ht-internal.h:315-375 | both ways of growing keep the set and reach the load asked for with the least prime that does; when primes are read beyond the last one is told by an if and only if |
| `HashTable.BeyondPrimes` | ios/Pods/libevent/ht-internal.h:321-331 | growing an empty table for 805306370 elements reads beyond the last prime |
| `HashTable.Table.Find` | ios/Pods/libevent/ht-internal.h:158-167 | the element with the key, or null exactly when there is none |
| `HashTable.Table.Insert` | ios/Pods/libevent/ht-internal.h:169-181 | the set gains exactly the element |
| `HashTable.Table.Replace` | ios/Pods/libevent/ht-internal.h:183-203 | takes the place of the element with the key, or is added; the count is right afterwards if and only if the element was not in the table itself, and the table is sound if and only if the element was not a new one whose `next` was set |
| `HashLinks.NoShape` | ios/Pods/libevent/ht-internal.h:183-203 | with two links to one element there are no chains of which the table could consist |
| `HashLinks.SinglyLinked` | ios/Pods/libevent/ht-internal.h:183-203 | a sound table has no two links to one element |
| `HashTable.Table.Remove` | ios/Pods/libevent/ht-internal.h:205-219 | the set loses exactly the element with the key |
| `HashWalk.OrderIsTable` | ios/Pods/libevent/ht-internal.h:250-279 | the order of a walk holds every element exactly once |
| `HashWalk.Start` | ios/Pods/libevent/ht-internal.h:250-263 | the first element of that order, if there is one |
| `HashWalk.Next` | ios/Pods/libevent/ht-internal.h:264-279 | the next element of that order, or the end |
| `HashWalk.NextRmv` | ios/Pods/libevent/ht-internal.h:280-298 | removes the element, whose `next` stays, and goes on with the rest of the order |
| `HashWalk.RemoveAll` | ios/Pods/libevent/event.c:591-595 | the loop over HT_NEXT_RMV sees every element exactly once, in the order of a walk, and leaves the table empty |
| `HashWalk.PutBack` | ios/Pods/libevent/ht-internal.h:183-203 | an element that HT_NEXT_RMV took out and HT_REPLACE puts back is linked twice, and the table is no longer sound |
| `HashWalk.Visit` | ios/Pods/libevent/ht-internal.h:124-128 | the loop sees every element exactly once |
| `HashWalk.ForeachFn` | ios/Pods/libevent/ht-internal.h:221-248 | the set loses exactly the elements for which the function says so |
| `Inet6.FindGap` | ios/Pods/libevent/evutil.c:1930-1945 | the first of the longest runs of at least two zero words |
| `Inet6.Ntop` | ios/Pods/libevent/evutil.c:1915-1983 | the text that RFC 4291 section 2.2 describes for the address, with the longest gap or a dotted quad |
| `Inet6Text.TextParses` | ios/Pods/libevent/evutil.c:2045-2130 | every printed form reads back as its sixteen bytes |
| `Inet6Text.TextDots` | ios/Pods/libevent/evutil.c:1915-1929 | a text has dots if and only if the address ends in an IPv4 one, and then it ends in four decimal bytes without leading zeros; any other is lower-case hexadecimal digits and colons |
| `Inet6Text.NumeralPlain` | ios/Pods/libevent/evutil.c:1946-1970 | numbers are written in lower-case digits without leading zeros |
| `Inet6Short.ShortNeverParses` | ios/Pods/libevent/evutil.c:1975-1983 | no printed form without its last character reads as the same address |
| `Inet6.Pton` | ios/Pods/libevent/evutil.c:2045-2130 | the loops read the words around the gap, move them and fill it with zeros, or refuse, exactly as a scanner of the text does |
| `Inet6.RoundTrip` | ios/Pods/libevent/evutil.c:1895-1983 | reading back what was printed gives the address if and only if the buffer is longer than the text |
| `Tagging.IntRoundTrip` | ios/Pods/libevent/event_tagging.c:121-142 | every 32-bit or 64-bit integer is read back, with whatever follows untouched |
| `Tagging.IntWire` | ios/Pods/libevent/event_tagging.c:121-142 | the bytes of every integer: the number of its hexadecimal digits less one, and then its digits n / 16^i % 16 by halves of bytes, the least significant first |
| `Tagging.ShortestInt` | ios/Pods/libevent/event_tagging.c:121-142 | no bytes that say an integer are fewer, and a half byte that is not needed is zero |
| `Tagging.DecodedInt` | ios/Pods/libevent/event_tagging.c:319-343 | of any bytes: there is an integer if and only if the first half byte allows it and enough bytes follow, and its digits are those halves of bytes |
| `Tagging.TagRoundTrip` | ios/Pods/libevent/event_tagging.c:177-246 | every 32-bit tag is read back, with whatever follows untouched |
| `Tagging.TagWire` | ios/Pods/libevent/event_tagging.c:177-198 | the bytes of every tag: its digits t / 128^i % 128, the least significant first, with the top bit on all but the last |
| `Tagging.ShortestTag` | ios/Pods/libevent/event_tagging.c:177-246 | no bytes that say a tag are fewer |
| `Tagging.DecodedTag` | ios/Pods/libevent/event_tagging.c:200-246 | of any bytes: there is a tag if and only if a byte below 128 comes within five and 32 bits suffice, and its digits are the low seven bits of the bytes up to it |
| `Tagging.RecordRoundTrip` | ios/Pods/libevent/event_tagging.c:260-267 | the bytes of a record, its tag and length of 32 bits, say that record, and what follows stays |
| `Tagging.StreamRoundTrip` | ios/Pods/libevent/event_tagging.c:260-267 | the bytes of any list of records say those records and nothing else |
| `Tagging.IntRecordRoundTrip` | ios/Pods/libevent/event_tagging.c:279-301 | an integer marshalled with a tag is read back under that tag |
| `TaggingBuffer.EncodeIntInternal` | ios/Pods/libevent/event_tagging.c:121-142 | the nibble loop produces the integer's bytes, which hold its number of digits and its digits |
| `TaggingBuffer.DecodeIntInternal` | ios/Pods/libevent/event_tagging.c:319-363 | the integer at an offset, or -1 exactly when it is incomplete or too long; the buffer's contents stay |
| `TaggingBuffer.EncodeTagTo` | ios/Pods/libevent/event_tagging.c:177-198 | appends exactly the tag's bytes, seven bits each with the top bit on all but the last |
| `TaggingBuffer.DecodeTagInternal` | ios/Pods/libevent/event_tagging.c:200-246 | the tag and its length, drained or not, or -1 exactly when it is incomplete or over 32 bits |
| `TaggingBuffer.Marshal` | ios/Pods/libevent/event_tagging.c:260-267 | appends exactly the record, for every tag and length of 32 bits |
| `TaggingBuffer.MarshalBuffer` | ios/Pods/libevent/event_tagging.c:269-277 | appends the tag, the low 32 bits of the length and a whole buffer, which is left empty |
| `TaggingBuffer.BufferRoundTrip` | ios/Pods/libevent/event_tagging.c:269-277 | what it appends reads back as that payload if and only if its length has 32 bits, and otherwise as its first bytes |
| `TaggingBuffer.UnmarshalHeader` | ios/Pods/libevent/event_tagging.c:441-455 | takes exactly the header and returns the length as a signed 32-bit number; on failure what has been drained is told |
| `TaggingBuffer.LengthExact` | ios/Pods/libevent/event_tagging.c:441-466 | a length is still itself after that if and only if it is below 2^31, and is taken for an error exactly when all its bits are set |
| `TaggingBuffer.Consume` | ios/Pods/libevent/event_tagging.c:457-466 | what is dropped, for every length: the first record when its payload is below 2^31 bytes |
| `TaggingBuffer.ConsumeTooMuch` | ios/Pods/libevent/event_tagging.c:457-466 | with a record of 2^31 bytes the byte behind it is dropped, too |
| `TaggingBuffer.Unmarshal` | ios/Pods/libevent/event_tagging.c:468-484 | moves exactly the first record's payload to the other buffer when that payload is below 2^31 bytes, whatever follows; otherwise an error, with the header gone and the other buffer as it was |
| `TaggingBuffer.UnmarshalRefused` | ios/Pods/libevent/event_tagging.c:468-484 | a record of 2^31 bytes that is there is refused |
| `TaggingBuffer.PeekLength` | ios/Pods/libevent/event_tagging.c:405-421 | for a whole record the number of bytes that dropping it removes, as an unsigned 32-bit number, without changing contents |
| `TaggingBuffer.UnmarshalInt` | ios/Pods/libevent/event_tagging.c:488-512 | the integer of a record with the wanted tag, which is dropped whole; how many bytes go is told for every input |
| `TaggingStream.WriteStream` | ios/Pods/libevent/event_tagging.c:260-267 | marshalling any list of records appends exactly their stream |
| `TaggingStream.ReadStream` | ios/Pods/libevent/event_tagging.c:468-484 | unmarshalling until that fails gives exactly the records before the first that is not whole or has 2^31 bytes or more, and what is left is told |
| `TaggingStream.StreamReceived` | ios/Pods/libevent/event_tagging.c:260-484 | of a stream exactly the records before the first one of 2^31 bytes or more are received |
| `TaggingStream.Transfer` | ios/Pods/libevent/event_tagging.c:260-484 | any list of records marshalled into a buffer is unmarshalled again as that list, leaving the buffer empty, if and only if every payload is below 2^31 bytes |
| `TokenBucket.ConfigNew` | ios/Pods/libevent/bufferevent_ratelim.c:142-173 | accepts exactly the rates, bursts and ticks that the bounds allow |
| `TokenBucket.Refill` | ios/Pods/libevent/bufferevent_ratelim.c:90-106 | min(limit + n * rate, maximum) without overflow, if and only if the limit was not above the maximum or the wrapped difference does not matter |
| `TokenBucket.Update` | ios/Pods/libevent/bufferevent_ratelim.c:73-111 | both buckets refilled for the ticks that passed, unless none passed or the clock jumped back |
| `TokenBucket.SplitUpdate` | ios/Pods/libevent/bufferevent_ratelim.c:73-111 | two updates do what one does, for any split, if and only if the ticks together are at most INT_MAX |
| `TokenBucket.BurstAndRate` | ios/Pods/libevent/bufferevent_ratelim.c:197-346 | in every obedient run the bytes moved between ticks s and t are at most maximum + (t - s) * rate |
| `TokenBucket.RefillsEnough` | ios/Pods/libevent/bufferevent_ratelim.c:73-111 | a limit that is used up is above zero after an update if and only if more ticks have passed than are owed, and no more than INT_MAX |
| `TokenBucket.BehindExact` | ios/Pods/libevent/bufferevent_ratelim.c:73-111 | for a clock that is k ticks behind the bucket, exactly which later ticks bring the limit above zero: none before k and the owed ones have passed |
| `TokenBucket.KeepsRefilling` | ios/Pods/libevent/bufferevent_ratelim.c:73-140 | with one configuration, after any number of updates, each at a later tick, the limit is above zero if and only if more ticks have passed than are owed |
| `TokenBucket.NoTick` | ios/Pods/libevent/bufferevent_ratelim.c:125-173 | a tick of less than a millisecond is accepted, with nothing to divide the time by |
| `RateLimit.SuspendUnsuspend` | ios/Pods/libevent/bufferevent.c:66-108 | suspending turns the back end off, and undoing it gives the direction back as it was |
| `RateLimit.Bufferevent.Enable` | ios/Pods/libevent/bufferevent.c:481-503 | enables the directions without starting a suspended back end |
| `RateLimit.Bufferevent.Disable` | ios/Pods/libevent/bufferevent.c:572-587 | disables the directions and stops their back ends |
| `RateLimit.Bufferevent.GetMax` | ios/Pods/libevent/bufferevent_ratelim.c:197-258 | what may be moved: the refilled limit, never below zero |
| `RateLimit.Bufferevent.DecrementBuckets` | ios/Pods/libevent/bufferevent_ratelim.c:272-346 | the bytes come off the limit of the direction named and nothing off the other; bandwidth suspension afterwards exactly when the limit is not above zero, with the timer pending |
| `RateLimit.Transfer` | ios/Pods/libevent/bufferevent_ratelim.c:197-346 | any list of transfers of both directions, each asked for what may be moved and charged for what is: in every stretch of it, from tick s to tick t, each direction moves at most maximum + (t - s) * rate |
| `RateLimit.Bufferevent.DecrementLimit` | ios/Pods/libevent/bufferevent_ratelim.c:968-1022 | takes the decrement, of either sign, off the limit of the direction named and nothing off the other; keeps limit, suspension and timer in step; all that always holds does so afterwards if and only if the limits are not above their maxima |
| `RateLimit.AboveMaximum` | ios/Pods/libevent/bufferevent_ratelim.c:968-1022 | one token given back to a full bucket takes the limit above its maximum |
| `RateLimit.Bufferevent.RefillCallback` | ios/Pods/libevent/bufferevent_ratelim.c:391-439 | a direction stays suspended exactly when its limit is still not above zero, and the timer is set again exactly then |
| `RateLimit.Bufferevent.SetRateLimit` | ios/Pods/libevent/bufferevent_ratelim.c:559-635 | a new bucket starts with one tick's rates, an old one is cut to the new maxima; suspension and timer fit the new configuration, whether set, changed, kept or removed |
| `RateLimit.RunsAgain` | ios/Pods/libevent/bufferevent_ratelim.c:391-439 | with one configuration bandwidth stops suspending a direction at exactly the first callback with more ticks passed than are owed, and one callback more than those is enough |
| `RateLimit.Starved` | ios/Pods/libevent/bufferevent_ratelim.c:49-71 | after a change from ticks of 1 ms to ticks of 1000 ms, with reading suspended, no refill callback in the next 53 years brings a token |

## Left out

- Pinned, sendfile, file-segment and multicast chains, callbacks on buffers, `evbuffer_peek`, printing and writing to sockets.
- Negative sizes and positions, casts of large sizes to `int`, and the sign of `evbuffer_ptr_memcmp`'s result.
- `EvbufferWrite.AddReference`: the same memory referenced twice, by one buffer or by two. A buffer owns all memory of its chains in the model, so the contract asks for memory that it does not have yet.
- `EvbufferReadInto.Read`: how much is readable and what arrives are parameters; socket errors are not modelled.
- `DnsEncode.CodeMeans`: a name with an empty label inside or in front is encoded, but the zero in the middle ends it for every reader; what it then denotes is not stated. The round trip of text is for names without a final dot, which is not read back.
- `DnsEncode.NameToLabels`: encoding without a label table, as for queries.
- Building queries, parsing replies, hosts files, search lists and the probing of nameservers.
- `RequestTable.EvdnsBase.Pump`: the transaction id is arbitrary below 0xffff, so nothing is said about ids being unique in flight; `transaction_id_pick` may also never end when all are in use.
- `RequestTable.EvdnsBase.Finish`: timers, handles, memory and the network are left out, as is the NULL list of teardown.
- `request_reissue` and request timeouts, which only use `request_swap_ns` and `request_finished`.
- `EventMap.IoBase.Dispatch`: the second half of `kq_dispatch`, errors of the kernel and descriptors closed behind its back.
- Edge-triggered events and signal events, and backends other than kqueue.
- `EventBases.EventBase.StartTurn`: what the user's callback does is any sequence of further steps; finalizers, signals, priorities that change and one-off events are left out.
- `EventBases.EventBase.TimeoutProcess`: the heap is a set, so which of two equal deadlines fires first is arbitrary.
- `HashTable.Table.Grow`: a failure of both allocations, what happens after a read beyond the primes, and load limits other than 0.5; `HT_CLEAR` and `HT_INIT`.
- IPv4 text, scope ids, and what `sscanf` lets through in a dotted quad, such as blanks and signs.
- `TaggingBuffer.MarshalInt`: time values, fixed-size and string payloads are plain payloads.
- `TaggingBuffer.PeekLength`: the 32-bit sum wraps around for lengths that no buffer can hold; the contract says so.
- `RateLimit.Bufferevent.DecrementLimit`: a decrement that takes the limit beyond its integer type.
- Rate-limit groups, watermarks, timeouts and the filters and pairs of bufferevents.
- The user interface, the platform layers and everything that only wires these cores together.
