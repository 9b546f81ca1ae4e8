# st-dns: a verified model

st-dns is a local DNS server. It parses requests from clients, answers them from a store of remote answers, and
refreshes that store through a priority queue of tasks that ask remote servers. This project models its core in Dafny
and proves what the core promises. Where the C++ code works in place (buffers, queue, stores, shared callback state),
the model is a class or a method over an array, proved against a specification function; the promises are then lemmas
about the specification.

How the parts build on each other:

- **Wire codec** (`Bytes`, `DomainNames`, `NameLaws`, `DnsMessages`, `MessageBuilding`, `MessageLaws`): sections 4.1.1
  to 4.1.4, 4.2.1 and 4.2.2 of RFC 1035. Memory is a byte sequence that may be longer than the declared message; a
  read outside it is the outcome `Overrun` (undefined behaviour in C++), never a precondition of a parser. Unsigned
  subtraction wraps at 32 or 64 bits where the code's counters do. The main results are the round trips of names,
  requests and responses, the exact limit on pointer chains, and the exact condition under which a built response
  parses.
- **Refresh queue** (`TaskQueue`, `RefreshTasks`): a state machine with submit, refill, dispatch and complete steps, a
  class that performs exactly those steps, an invariant of every reachable state, and laws over whole runs:
  conservation, dispatch at most once, the rate limit, priorities, single flight.
- **Records** (`DiskKv`, `RecordStore`, `Servers`, `Resolution`, `ResolutionLaws`, `ServerRuns`, `Queries`): the expiring
  store, the forward and reverse index, server selection, and resolving, up to the traceability of every served address
  and its expiry, and the refreshes that a question starts.
- **Fan-in, text, ranges, pacing** (`FanIn`, `Strings`, `Ipv4Text`, `Cidr`, `LookupPacing`).

Reading guide: `mem` is memory behind a data pointer; `Stored(mem, at, bs)` is memory after `bs` was written at `at`;
`HoldsAt(mem, at, bs)` says that `bs` stands there. A method that models C++ code ends in one `ensures` that equates
its whole effect with a specification function, and the lemmas named beside it say what that function guarantees.

What is taken as given: every handler that holds a mutex or runs on a single-threaded `io_context` is one atomic step;
clock readings, random seeds, fresh ids, the regular-expression test, the area test and the iteration order of hash
containers are parameters; protobuf is a bijection and LevelDB a map; stored domains and serialized records contain no
NUL byte, so `put` does not cut them; server ids are distinct and at most 255 servers are configured where resolving
is concerned, because `server_order` has 8 bits. Sorting is "some sorted permutation", shuffling "some permutation",
the heap's top "some entry of highest priority": callers of `Sort`, `Shuffle` and `Top` know no more.

Where the code departs from what it seems to promise, the code is modelled and the exact condition is proved:

- `parseRe` goes on after a compression pointer that follows labels, although section 4.1.4 of RFC 1035 lets a pointer
  end a name: the length is right exactly when no byte is left to read or the next one is no frame
  (`NameLaws.PointerBehindLabelsIff`; `NameLaws.PointerBeforeType` is an input).
- A pointer in a question counts from the question's own start, although section 4.1.4 of RFC 1035 counts from the
  start of the message (`MessageLaws.CompressedQuestion`); in records the code counts from the message.
- `generate` never checks labels: over all names of up to 256 bytes for which it stays within the string, what it wrote
  is read back exactly when every label has 1 to 63 bytes (`NameLaws.RoundTripIff`; `NameLaws.DoubledDot`).
- `generate` reads outside the string exactly for strings of at most 254 bytes whose C string is empty or begins with a
  dot (`DomainNames.LeavesStringIff`; `DomainNames.EmptyHostLeavesString`). A question for the root name gives the
  empty host (`MessageLaws.RootQuestionLeavesString`).
- `generate` keeps label bounds in unsigned chars. No bound is changed exactly for the hosts that are not empty, do not
  begin with a dot, and have at most 256 bytes, the 256th being no dot (`DomainNames.BoundsExactIff`). Changed bounds
  can be harmless: unless a label reaches across a multiple of 256, a host of any length is read back exactly when every
  label has 1 to 63 bytes and equals the bytes at its positions modulo 256 (`NameLaws.WrappedRoundTripIff`).
- A question whose class field is cut off is accepted, and its zone then reaches one or two bytes behind memory, which
  happens in no other case (`DnsMessages.ZoneEnds`; `MessageLaws.ClassCutOff`). The builder leaves a buffer exactly when
  the zone does not fit the request's buffer or its own (`MessageBuilding.BuildResponse`).
- The builder writes the answer count before its 512-byte cut-off can drop records; such a response is rejected by the
  program's own parser, and this happens exactly when the picked addresses do not all fit
  (`MessageLaws.BuiltResponseRoundTrip`; `MessageLaws.CutOffResponse`).
- `join` does not undo `split` exactly when the text begins with the separator (`Strings.JoinUndoesSplitIff`;
  `Strings.LeadingSeparatorIsLost`).
- Different refreshes share a single-flight key exactly when the ports are equal and so are the texts of domain, slash
  and address with dots turned into underscores (`Servers.RefreshKeyIff`; `Servers.RefreshKeyCollisions`). With distinct
  server ids and no slash in an address this cannot happen between configured servers (`RefreshTasks.KeysTellApart`).
- The priorities of one sync call wrap around exactly from 102 servers on (`RefreshTasks.PrioritiesDecreaseIff`).
- The fan-in counter has 16 bits, so from 65536 areas on the handler is never called (`FanIn.FiresOnLastOnlyIff`).
- The comparison of a last label with `lan` never succeeds, because labels are upper-cased first
  (`ServerRuns.NeverLowerCase`).
- Erasing on `get` can be observed exactly when the clock goes back: for stores with any content, when some reading is
  below an earlier one (`DiskKv.AlwaysAlikeIff`); for a store used from its creation, when some reading exceeds both an
  earlier and a later one (`DiskKv.AlikeFromEmptyIff`; `DiskKv.ErasureShowsWhenClockGoesBack`). Readings from the last
  32-bit second on count as that second, because every stored expiry is over by then.
- An expiry second past 32 bits wraps (`DiskKv.ReadBackIff`).
- A CIDR line names the addresses with its prefix exactly when its address is aligned (`Cidr.RangeIsPrefixIff`;
  `Cidr.MisalignedLine`), and `get_area` depends on the hash map's order exactly when the address is not 0 and two areas
  cover it (`Cidr.OneAnswerIff`; `Cidr.OrderMatters`).

## Model

| member | source | states |
|---|---|---|
| `Bytes.NumberRoundTrip` | src/common/main/utils/byte.h:36-55 | Reading the big-endian bytes of a number gives the number back, for every width and every number that fits it. |
| `Bytes.NetworkOrder` | src/common/main/utils/byte.h:46-55 | Of two and of four bytes read, the first counts most. |
| `Bytes.NetworkBytes` | src/common/main/utils/byte.h:68-76 | Of two and of four bytes written, the first counts most. |
| `Bytes.OrLowBits` | src/common/main/utils/byte.h:47-55 | ORing a value into free low-order bit places adds it, which is why assembling a number byte by byte with OR is correct. |
| `Bytes.BitOrBits` | src/common/main/utils/byte.h:47-55 | A bit of an OR is set exactly when it is set in one of its operands. |
| `Bytes.Read` | src/common/main/utils/byte.h:46-55 | For the widths of up to 4 bytes that a 32-bit shift allows: the loop of shifts and ORs yields the target OR the big-endian number stored there, so the number itself only from a zero target; outside memory it is an overrun. |
| `Bytes.Write` | src/common/main/utils/byte.h:68-76 | For widths of up to 4 bytes: stores the number most significant byte first, changes no other byte, and returns the position behind it. |
| `Bytes.StoredElsewhere` | src/common/main/utils/byte.h:68-76 | Storing changes nothing in front of what is stored and nothing behind it. |
| `Bytes.Copy` | src/common/main/utils/byte.h:20-34 | Memory afterwards holds the copied run at the target and is otherwise unchanged. |
| `DomainNames.LabelBounds` | src/core/protocol/dns_message.cpp:54-73 | For every host, the positions kept in unsigned chars are those of the labels between the dots, wrapped at 256, and labels and other bytes add up to the host length plus 1. |
| `DomainNames.BoundsExactIff` | src/core/protocol/dns_message.cpp:55-70 | No position is changed by the unsigned chars if and only if the host is not empty, does not begin with a dot, and has at most 256 bytes, the 256th being no dot. |
| `DomainNames.WriteLabel` | src/core/protocol/dns_message.cpp:78-86 | One label ends up behind its length byte and nothing else changes; bounds that wrapped write what the code writes for them, and leaving the string or the buffer is an overrun. |
| `DomainNames.Generate` | src/core/protocol/dns_message.cpp:53-90 | For every name: writes in place exactly the pieces that the wrapped bounds select and the final zero, and returns the C string length plus 2, or leaves the string or the buffer. |
| `DomainNames.LeavesStringIff` | src/core/protocol/dns_message.cpp:53-90 | Over all names, `generate` reads outside the string if and only if the string has at most 254 bytes and its C string is empty or begins with a dot. |
| `DomainNames.EmptyHostLeavesString` | src/core/protocol/dns_message.cpp:64-86 | Inputs: the empty host and the lone dot. |
| `DomainNames.EncodingOfFitting` | src/core/protocol/dns_message.cpp:53-90 | For every name whose bounds do not wrap, what is written is its labels, each behind its length byte, and a final zero. |
| `DomainNames.EncodedLength` | src/core/protocol/dns_message.cpp:73 | An encoded name is two bytes longer than its host, however many labels it has. |
| `DomainNames.AppendHostLabels` | src/core/protocol/dns_message.cpp:133-138 | Joining the labels of a host with dots, the way the parser does, gives the host again. |
| `DomainNames.CStringIs` | src/core/protocol/dns_message.cpp:54-56 | A name counts up to its first NUL, whatever follows. |
| `DomainNames.ReadFrame` | src/core/protocol/dns_message.cpp:99-132 | What one turn of the loop decides (stop, label, jump) from the frame byte and the byte behind it, including every stop and failure. |
| `DomainNames.ParseRe` | src/core/protocol/dns_message.cpp:91-150 | The loop with its recursive calls terminates on every memory, by depth left and bytes left, and computes the specification that the laws of `NameLaws` speak about. |
| `NameLaws.ConsumedBound` | src/core/protocol/dns_message.cpp:91-145 | On every byte string and at every depth the parser consumes at most one byte more than it was allowed. |
| `NameLaws.FramesBound` | src/core/protocol/dns_message.cpp:98-145 | The loop fails with 0 or never returns less than what it had consumed. |
| `NameLaws.EndingFrames` | src/core/protocol/dns_message.cpp:98-132 | For all memory: what the loop returns at a byte that is no frame, at a zero, at a label longer than the bytes left, and where a label or pointer reaches behind memory. |
| `NameLaws.ReadSpelledName` | src/core/protocol/dns_message.cpp:98-144 | A spelled-out name is read whole, whatever surrounds it, and consumes exactly its encoding. |
| `NameLaws.ReadHost` | src/core/protocol/dns_message.cpp:53-145 | `generate` then `parseRe` is the identity on valid hosts and consumes host length plus 2. |
| `NameLaws.WrappedRoundTripIff` | src/core/protocol/dns_message.cpp:53-145 | Over all names of any length for which `generate` stays within the string and no label of proper length reaches across a multiple of 256: what it wrote reads back as the C string if and only if every label has 1 to 63 bytes and equals the bytes at its positions modulo 256. |
| `NameLaws.RoundTripIff` | src/core/protocol/dns_message.cpp:53-145 | Over all names of up to 256 bytes for which `generate` stays within the string, those with a NUL included: what it wrote reads back as the C string if and only if every label has 1 to 63 bytes. |
| `NameLaws.EmptyLabelStops` | src/core/protocol/dns_message.cpp:124-127 | Why: behind labels that came out right, an empty label, whatever became of its bounds, is written with a zero in front and reads as the end of the name. |
| `NameLaws.DoubledDot` | src/core/protocol/dns_message.cpp:53-145 | An input: `a..b` is written whole and reads back as `a`. |
| `NameLaws.WrittenBefore` | src/core/protocol/dns_message.cpp:64-87 | Labels that came out right are followed by the piece written for the next one, or by the final zero. |
| `NameLaws.ShortHostsAreKept` | src/core/protocol/dns_message.cpp:55-70 | In hosts of up to 256 bytes every label equals the bytes at its positions modulo 256 and none reaches across. |
| `NameLaws.ReplacedLabelShows` | src/core/protocol/dns_message.cpp:128-138 | Why: a label written with other bytes makes the name read back another one, whatever follows. |
| `NameLaws.CrossingPiece` | src/core/protocol/dns_message.cpp:78-86 | A label that reaches across a multiple of 256 is written as its length alone, without its bytes. |
| `NameLaws.NulInLabel` | src/core/protocol/dns_message.cpp:133-138 | An input: inside a label only the bytes up to a NUL count. |
| `NameLaws.FramesAppend` | src/core/protocol/dns_message.cpp:105-142 | From a non-empty text on, the parser only appends to it, through labels and pointers alike. |
| `NameLaws.LongRun` | src/core/protocol/dns_message.cpp:79-80 | Why: a label of 64 bytes or more makes 64 bytes in a row without a dot. |
| `NameLaws.ReadRunsAreShort` | src/core/protocol/dns_message.cpp:124-142 | Whatever the bytes and pointers, no name ever read has 64 bytes in a row without a dot. |
| `NameLaws.LonePointer` | src/core/protocol/dns_message.cpp:100-119 | A lone pointer yields the name it points to and consumes 2, or fails with the target. |
| `NameLaws.SelfPointer` | src/core/protocol/dns_message.cpp:105-121 | A pointer to the place where its own name starts ends the name with what was read so far. |
| `NameLaws.FailingPointer` | src/core/protocol/dns_message.cpp:105-119 | A pointer that leads to no name, or out of memory, does so for the name it ends, whatever was read before it. |
| `NameLaws.PointerPastEnd` | src/core/protocol/dns_message.cpp:105-108 | A pointer past the declared end wraps the 64-bit count of bytes left, so that a name in the memory behind the message is read. |
| `NameLaws.ReadChain` | src/core/protocol/dns_message.cpp:92-119 | A chain of pointers met at any depth yields the name at its end, or fails when the depth limit is passed on the way. |
| `NameLaws.ChainLimit` | src/core/protocol/dns_message.cpp:92-119 | A chain of k lone pointers to a spelled-out name yields that name and 2 bytes exactly when k is at most 20, and fails with 0 otherwise. |
| `NameLaws.PointerCycle` | src/core/protocol/dns_message.cpp:92-119 | Pointers that only lead to each other, in particular every cycle of two or more, read as failure from every place and depth. |
| `NameLaws.SmallestCycle` | src/core/protocol/dns_message.cpp:92-119 | Two pointers to each other fail at every depth: an instance that shows the law above is not empty. |
| `NameLaws.PointerAfterLabels` | src/core/protocol/dns_message.cpp:105-115 | Behind labels, the pointed-to name is appended after a dot and the loop goes on behind the pointer. |
| `NameLaws.PointerBehindLabelsIff` | src/core/protocol/dns_message.cpp:98-144 | A labels-and-pointer name has its right length if and only if the pointer used up the allowed bytes or the next byte is no frame; before a zero byte it is one too long. |
| `NameLaws.PointerBeforeType` | src/core/protocol/dns_message.cpp:98-144 | An input: an owner of one label and a pointer, in front of its type field, reads as 5 bytes instead of 4. |
| `DnsMessages.ReadNumber` | src/common/main/utils/byte.h:46-55 | From a zero target, `read` through a data pointer gives the stored number. |
| `DnsMessages.ReadHeader` | src/core/protocol/dns_message.h:132-147 | Delivers id, flags, response code and counts of the header as `HeaderBytes` spells them out, nothing for fewer than 12 bytes. |
| `DnsMessages.HeaderBytes` | src/core/protocol/dns_message.h:132-147 | Section 4.1.1 of RFC 1035, for all memory: what each bit of the header means; bytes 8 to 11 are never read, so authority and additional counts cannot matter. |
| `DnsMessages.ReadQuestion` | src/core/protocol/dns_message.h:281-294 | Reads a question's name relative to the question's own start, and its type; a failed name makes it invalid. |
| `DnsMessages.ReadZone` | src/core/protocol/dns_message.h:328-345 | The question loop with its wrapping 32-bit rest counter delivers the specified questions and length, for every count and memory. |
| `DnsMessages.ZoneEnds` | src/core/protocol/dns_message.h:281-345 | For all memory: the last type field lies in memory, the zone ends at most two bytes behind it, and it ends within exactly when the last class field does. |
| `DnsMessages.ReadAddresses` | src/core/protocol/dns_message.h:437-441 | The addresses of one record, in order. |
| `DnsMessages.ReadResource` | src/core/protocol/dns_message.h:405-413 | A record starts with an owner name read from the whole message; without one it is invalid. |
| `DnsMessages.ReadFields` | src/core/protocol/dns_message.h:414-446 | Type, class, time to live, then an alias that must parse or a multiple of four bytes of addresses; any other length is invalid. |
| `DnsMessages.UdpResponse.constructor` | src/core/protocol/response.cpp:126-127 | A new response object holds its buffer and no result. |
| `DnsMessages.UdpResponse.Parse` | src/core/protocol/response.cpp:56-119 | The state loop ends, and leaves in the object exactly what parsing the message means: validity, header, questions, records, addresses, length. |
| `DnsMessages.UdpResponse.ParseAnswerZones` | src/core/protocol/response.cpp:86-105 | The inner loop collects records and addresses up to the announced count and stops at the first invalid one. |
| `DnsMessages.ReadTcpResponse` | src/core/protocol/response.cpp:166-185 | A TCP message is parsed only if its length prefix is the length received less two; an invalid inner message invalidates it. |
| `MessageBuilding.WriteHeader` | src/core/protocol/dns_message.h:167-193 | The six header numbers stand in memory high byte first, and nothing else changed. |
| `MessageBuilding.WriteQuestion` | src/core/protocol/dns_message.h:300-307 | For every name: memory afterwards is what `generate` wrote and, at the length it reported, type A and class IN; leaving string or buffer is an overrun. |
| `MessageBuilding.WriteAddress` | src/core/protocol/dns_message.h:450-474 | The 16 bytes of an A record that points at the first question. |
| `MessageBuilding.WriteQuestions` | src/core/protocol/dns_message.h:347-356 | For all names: memory afterwards is that of the questions written one behind the other at their reported lengths. |
| `MessageBuilding.FittingQuestions` | src/core/protocol/dns_message.h:347-356 | For names whose bounds are not changed, these are the encoded questions, each up to its first NUL. |
| `MessageBuilding.CollectHosts` | src/core/protocol/request.cpp:41-45 | The names of the questions that have one, in order. |
| `MessageBuilding.UdpRequest.constructor` | src/core/protocol/request.cpp:61-62 | A new request object holds its buffer and no result. |
| `MessageBuilding.UdpRequest.Init` | src/core/protocol/request.cpp:9-14 | For all names: the buffer holds header, questions and behind them a copy of the questions' bytes, on which the zone object stands; the length excludes the copy; leaving string or buffer is an overrun. |
| `MessageBuilding.InitWritesRequest` | src/core/protocol/request.cpp:9-14 | For names whose bounds are not changed and a buffer with room for both, that is the encoded request and its questions once more. |
| `MessageBuilding.UdpRequest.Parse` | src/core/protocol/request.cpp:28-58 | Leaves in the object exactly what parsing the request means: validity, header, questions, hosts; an accepted zone ends at most two bytes behind the buffer, and within it exactly when its last class field does. |
| `MessageBuilding.InitTcp` | src/core/protocol/request.cpp:81-89 | For all names: the buffer is that of `init` two bytes in, with the length of the request in front, and `len` covers both. |
| `MessageBuilding.InitTcpWritesRequest` | src/core/protocol/request.cpp:81-89 | For names whose bounds are not changed, the buffer begins with the length of the encoded request and the request. |
| `MessageBuilding.WriteAddresses` | src/core/protocol/response.cpp:150-161 | Writes the longest prefix of the addresses that stays below 512 bytes and reports it. |
| `MessageBuilding.BuildResponse` | src/core/protocol/response.cpp:129-164 | A buffer is left if and only if the question zone does not lie in the request's buffer or does not fit the response's; otherwise the message is header, copied question bytes and address records, and the addresses written are the first k of the record's, with k at most 5, below 512 bytes, and one more impossible unless all, or five, were written. |
| `MessageBuilding.FirstIpsAre` | src/core/protocol/response.cpp:131-134 | All addresses of a record of up to five, and the first five of any other. |
| `MessageBuilding.RecordsWrittenBound` | src/core/protocol/response.cpp:151-158 | As many records are written as stay below 512 bytes: all of them, or so many that one more would reach 512. |
| `MessageLaws.ReadFilling` | src/core/protocol/dns_message.h:428-434 | Labels and a pointer that fill their record data are consumed whole and read as the labels, a dot and the name the pointer leads to. |
| `MessageLaws.ReadTarget` | src/core/protocol/dns_message.cpp:100-119 | Whatever chain leads from an offset to a spelled-out name, the parser reads that name, so the name is unique. |
| `MessageLaws.LeadsAway` | src/core/protocol/dns_message.cpp:105-121 | A pointer behind labels that leads to a name never leads to it through the place where the labels start, so the stop at an own pointer is not taken. |
| `MessageLaws.ReadOwner` | src/core/protocol/dns_message.h:225-232 | An owner, spelled out or a lone pointer, consumes exactly its encoding and reads as its labels or as the name pointed to. |
| `MessageLaws.ReadAlias` | src/core/protocol/dns_message.h:428-434 | Alias data, with or without a trailing pointer, consumes exactly its length and reads as its labels, joined with the name pointed to. |
| `MessageLaws.ReadRecord` | src/core/protocol/dns_message.h:405-448 | An encoded record parses to its own owner name, type, class, time to live and length, with its alias name if it is a CNAME and its addresses, or the words of any other data of a multiple of four bytes, in order. |
| `MessageLaws.OddDataRejected` | src/core/protocol/dns_message.h:435-446 | Data of another type whose length is no multiple of four makes its record invalid. |
| `MessageLaws.ReadRecords` | src/core/protocol/response.cpp:86-105 | The answer loop gets past every well-formed list of records, delivers each with its names, and appends exactly their addresses. |
| `MessageLaws.ReadQueries` | src/core/protocol/dns_message.h:328-345 | Any list of uncompressed questions parses to exactly those questions, also when more are announced and nothing follows. |
| `MessageLaws.CompressedQuestion` | src/core/protocol/dns_message.h:281-294 | A question whose name is a pointer is read with the name that stands at that distance from the question's own start, and has 6 bytes. |
| `MessageLaws.ParseEncodedResponse` | src/core/protocol/response.cpp:56-119 | Every message with response code 0, uncompressed questions and any records whose pointers lead to names parses valid, with its id, all records, their owner and alias names, and exactly their addresses in order, whatever authority and additional counts it announces and whatever bytes stand behind the answers. |
| `MessageLaws.ErrorResponse` | src/core/protocol/response.cpp:74-112 | A message of more than 12 bytes with response code 1 to 15 is valid and keeps its id and code; it has no question zone, no records and no addresses. |
| `MessageLaws.ShortMessages` | src/core/protocol/response.cpp:59-117 | Messages of at most 12 bytes are neither requests nor responses. |
| `MessageLaws.BadQuestionRejects` | src/core/protocol/request.cpp:34-49 | An unreadable question behind any others, or no announced question in a request, makes request and response invalid. |
| `MessageLaws.BadRecordRejects` | src/core/protocol/response.cpp:89-105 | An unreadable record makes the response invalid and ends the collection; the records and addresses before it are kept. |
| `MessageLaws.MissingRecords` | src/core/protocol/response.cpp:86-105 | A message that announces more records than follow is rejected. |
| `MessageLaws.BuiltShape` | src/core/protocol/response.cpp:129-164 | The addresses kept are a prefix of at most five, the longest below 512 bytes; the message is then header, questions and one 16-byte record each, and its exact length follows. |
| `MessageLaws.BuiltResponseRoundTrip` | src/core/protocol/response.cpp:129-164 | With q bytes of questions and n addresses, a built response parses valid if and only if n is 0 or 12 + q + 16 min(5, n) is below 512; it then carries the request's id, the response flag, the questions, and all addresses, or the first five of more, each under the first question's name with the given time to live; the length stays below 512 whenever header and questions do. |
| `MessageLaws.ResponseBytes` | src/core/protocol/response.cpp:129-164 | An input: the response with address 1.2.3.4 for 600 seconds to a question for `a`, byte by byte. |
| `MessageLaws.CutOffResponse` | src/core/protocol/response.cpp:151-158 | An input: 420 bytes of questions and five addresses make a response of 496 bytes that announces one record too many and is rejected. |
| `MessageLaws.AnswerEchoesRequest` | src/core/protocol/response.cpp:139-148 | From any parsed well-formed request, whatever its other counts and the bytes behind its questions, the response built from it echoes its id and questions and carries the addresses up to the fifth, or is rejected because they do not fit. |
| `MessageLaws.ParseEncodedRequest` | src/core/protocol/request.cpp:28-58 | A request with any uncompressed questions parses to exactly those, and its zone is exactly their bytes, whatever answer, authority and additional counts it announces and whatever bytes follow. |
| `MessageLaws.EdnsQuery` | src/core/protocol/request.cpp:28-58 | An input: a 30-byte query for `a` with an additional record, as resolvers send it, is accepted with its host. |
| `MessageLaws.MissingQuestions` | src/core/protocol/dns_message.h:328-345 | When nothing follows the questions, announcing more of them changes nothing but the announced count. |
| `MessageLaws.RequestBytes` | src/core/protocol/request.cpp:9-14 | An input: the request with id 1 for `a`, byte by byte. |
| `MessageLaws.HostQueriesEncode` | src/core/protocol/dns_message.h:347-369 | The bytes written for hosts are those of type A questions whose parsed names are the hosts. |
| `MessageLaws.RequestRoundTrip` | src/core/protocol/request.cpp:9-58 | A request for any non-empty list of valid hosts parses back to the same id, hosts and type A, whatever follows it in the buffer. |
| `MessageLaws.RootQuestionLeavesString` | src/core/protocol/request.cpp:41-45 | An input: a question for the root name is accepted without a host, and `generate` leaves the string of the empty host that stands for it. |
| `MessageLaws.ClassCutOff` | src/core/protocol/dns_message.h:288-291 | An input: a request of 15 bytes without its class field is accepted with a zone two bytes too long. |
| `MessageLaws.TcpFraming` | src/core/protocol/response.cpp:166-185 | The TCP form is accepted exactly at the length of prefix plus message, and then reads as the UDP form behind two bytes. |
| `TaskQueue.Queue.constructor` | src/common/main/taskquque/task_queue.h:96-103 | A new queue is in the initial state and valid. |
| `TaskQueue.Queue.Submit` | src/common/main/taskquque/task_queue.h:105-114 | Accepts exactly the tasks without key or with a key not in flight, performs the submit step and keeps the invariant. |
| `TaskQueue.AcceptedIff` | src/common/main/taskquque/task_queue.h:105-114 | In every reachable state a task is accepted if and only if it has no key or no live task has its key. |
| `TaskQueue.SubmittedIsPending` | src/common/main/taskquque/task_queue.h:105-114 | An accepted task is pending as submitted and joins the others; a refused one leaves everything as it was. |
| `TaskQueue.Queue.Complete` | src/common/main/taskquque/task_queue.h:115-120 | Completing a running task performs the complete step and keeps the invariant. |
| `TaskQueue.Queue.GenerateKey` | src/common/main/taskquque/task_queue.h:64-72 | A tick performs the refill step, whose exact effect on the bucket `StepTokensExact` states, and keeps the invariant. |
| `TaskQueue.Queue.Top` | src/common/main/taskquque/task_queue.h:38-43 | The heap hands out some entry that no other exceeds in priority. |
| `TaskQueue.Queue.RunTop` | src/common/main/taskquque/task_queue.h:78-87 | The lookup of the top task succeeds; it becomes running, leaves the heap and costs one token. |
| `TaskQueue.Queue.DispatchTask` | src/common/main/taskquque/task_queue.h:74-89 | Runs a pending task of highest priority exactly when a token, an entry and a slot are there, else does nothing. |
| `TaskQueue.StepKeepsInv` | src/common/main/taskquque/task_queue.h:64-120 | Every step keeps the invariant: heap ids are exactly the pending tasks, once each; `running` counts the running tasks and stays within its cap; keys in flight are exactly the non-empty keys of live tasks; tokens stay in bounds. |
| `TaskQueue.RunKeepsInv` | src/common/main/taskquque/task_queue.h:64-120 | The invariant holds in every state of every run. |
| `TaskQueue.DispatchKeepsInv` | src/common/main/taskquque/task_queue.h:78-83 | The lookup of the dispatched id always succeeds, whichever top entry the heap chose, and the invariant survives. |
| `TaskQueue.TasksAreConserved` | src/common/main/taskquque/task_queue.h:74-120 | Over every run accepted tasks are pending plus running plus completed, and dispatched ones running plus completed. |
| `TaskQueue.NeverPendingAgain` | src/common/main/taskquque/task_queue.h:74-114 | Once dispatched, a task id is never pending again. |
| `TaskQueue.DispatchedAtMostOnce` | src/common/main/taskquque/task_queue.h:74-89 | No two dispatches of a run take the same task. |
| `TaskQueue.TokensAreConserved` | src/common/main/taskquque/task_queue.h:64-83 | Tokens left and spent in any stretch never exceed those at its start plus those refilled. |
| `TaskQueue.RateLimit` | src/common/main/taskquque/task_queue.h:64-89 | In every window of every run with n ticks, dispatches are at most the tokens at its start plus n*qps/20, hence at most qps*(1+n/20). |
| `TaskQueue.StepTokensExact` | src/common/main/taskquque/task_queue.h:64-83 | A tick adds qps/20 tokens up to qps, a dispatch takes one, nothing else changes the bucket. |
| `TaskQueue.TokensExact` | src/common/main/taskquque/task_queue.h:64-83 | Over any window in which the bucket stays below qps, its end holds exactly the start plus n*qps/20 less one a dispatch. |
| `TaskQueue.TokensFill` | src/common/main/taskquque/task_queue.h:67-69 | Over any window without dispatch, the end holds the smaller of qps and the start plus n*qps/20. |
| `TaskQueue.DispatchTakesIff` | src/common/main/taskquque/task_queue.h:74-88 | In every reachable state a dispatch takes a task if and only if there is a whole token, a pending task and a free slot. |
| `TaskQueue.DispatchedAfterOneSecond` | src/common/main/taskquque/task_queue.h:64-93 | Progress: with qps at least 1, after 20 ticks without a dispatch, the next dispatch takes a task if one is pending and a slot is free. |
| `TaskQueue.DispatchesHighest` | src/common/main/taskquque/task_queue.h:38-80 | A task is never dispatched while a pending one has higher priority. |
| `TaskQueue.EntryLeavesByDispatch` | src/common/main/taskquque/task_queue.h:78-81 | A heap entry disappears only by being dispatched. |
| `TaskQueue.HigherGoesFirst` | src/common/main/taskquque/task_queue.h:74-114 | Of two tasks the one accepted first and of higher priority is dispatched first, under every interleaving. |
| `TaskQueue.HeapShrinks` | src/common/main/taskquque/task_queue.h:74-89 | Without submissions the heap loses exactly one entry a dispatch and gains none. |
| `TaskQueue.DrainingOrder` | src/common/main/taskquque/task_queue.h:74-93 | Without submissions dispatched priorities never increase, and the heap is empty exactly after as many dispatches as it had entries. |
| `Strings.FindIs` | src/common/main/utils/string_utils.h:25 | An occurrence that nothing precedes is the one found. |
| `Strings.Find` | src/common/main/utils/string_utils.h:25 | Finds the leftmost occurrence at or after a position, and none only if there is none. |
| `Strings.DoSplit` | src/common/main/utils/string_utils.h:18-41 | The loop computes the specified pieces for every start and limit. |
| `Strings.SplitRejoins` | src/common/main/utils/string_utils.h:18-45 | Putting the separators back between the pieces gives the string back, for every start and limit. |
| `Strings.PiecesAreClean` | src/common/main/utils/string_utils.h:42-45 | No piece of an unlimited split contains the separator. |
| `Strings.SplitInterleaved` | src/common/main/utils/string_utils.h:18-41 | Pieces without the separator come back from the text they make. |
| `Strings.LimitedSplit` | src/common/main/utils/string_utils.h:18-41 | A limit of k splits keeps the first k pieces of the unlimited split and leaves the rest in one. |
| `Strings.FirstPieceIsClean` | src/common/main/utils/string_utils.h:18-41 | From a start position on, the first piece has no separator; those before the start are passed over. |
| `Strings.DoJoin` | src/common/main/utils/string_utils.h:54-62 | The loop computes the join that writes no separator while its result is empty. |
| `Strings.JoinUndoesSplitIff` | src/common/main/utils/string_utils.h:18-62 | `join` undoes `split` if and only if the string does not begin with the separator. |
| `Strings.LeadingSeparatorIsLost` | src/common/main/utils/string_utils.h:18-62 | An input: `,a` splits and joins to `a`. |
| `Strings.DecimalRoundTrip` | src/common/main/utils/ipv4.h:12-22 | The decimal text of a number reads back as the number. |
| `Strings.DecimalShape` | src/common/main/utils/ipv4.h:12-22 | No number above 0 is written with a leading zero, and exactly those below 10 with one digit. |
| `Ipv4Text.DoStrToIp` | src/common/main/utils/ipv4.h:24-51 | The loop with its over-long `substr`, early zeros and throwing `stoi` computes the specified outcome for every string. |
| `Ipv4Text.StrToIpIs` | src/common/main/utils/ipv4.h:24-51 | For every text, the loop over positions gives what reading the pieces between its dots gives: four numbers up to 255 at the starts of the pieces make the address, a dot at the end stops early, an over-long number throws, and anything else is 0. |
| `Ipv4Text.ReadSegment` | src/common/main/utils/ipv4.h:29-42 | Although `substr` takes a position as a length, the segment reads as the number up to the next dot. |
| `Ipv4Text.AddressRoundTrip` | src/common/main/utils/ipv4.h:12-51 | Every 32-bit address reads back from its text. |
| `Ipv4Text.AddressTexts` | src/common/main/utils/ipv4.h:12-22 | An input: 1.2.3.4, high byte first. |
| `Ipv4Text.IpsToStr` | src/common/main/utils/ipv4.h:65-73 | The result is the texts with commas between them and none at the end, also for no address. |
| `Ipv4Text.StrToIps` | src/common/main/utils/ipv4.h:53-63 | The addresses between commas without zeros, or an exception if any piece throws. |
| `Ipv4Text.AddressListRoundTrip` | src/common/main/utils/ipv4.h:53-73 | Printing and reading any list of 32-bit addresses drops exactly its zeros and keeps the order. |
| `Servers.ServerIdIff` | src/core/config.h:33-41 | Two servers share an id if and only if their ports are equal and their addresses are, once dots are underscores. |
| `Servers.ServerIdOf` | src/core/config.h:33-41 | Inputs: dots become underscores, and the port follows in decimal, with its sign. |
| `Servers.RefreshKeyIff` | src/core/dns_server.cpp:266 | Over all inputs, two refreshes share a key if and only if the ports are equal and so are the texts of domain, slash and underscored address. |
| `Servers.SameDomainKeyIff` | src/core/dns_server.cpp:266 | For one domain, keys tell servers apart exactly as well as ports and underscored addresses do. |
| `Servers.SlashFreeKeyIff` | src/core/dns_server.cpp:266 | Between addresses without slash, two refreshes share a key if and only if they share domain and server id. |
| `Servers.RefreshKeyInjective` | src/core/dns_server.cpp:266 | Between addresses without underscore and slash, two refreshes share a key if and only if they share domain, address and port. |
| `Servers.RefreshKeyCollisions` | src/core/config.h:33-35 | Inputs: an underscore for a dot, and a slash that moves into the domain, make different refreshes share a key. |
| `Servers.SelectServers` | src/core/config.cpp:90-121 | The loop returns the first server that is not skipped and whitelists the domain, alone, or else all servers neither skipped nor blacklisted, in order. |
| `Servers.SkippedIff` | src/core/config.cpp:93-98 | A server is skipped if and only if the text behind the last dot is LAN or ARPA in any case and its areas lack LAN. |
| `Servers.InWhitelist` | src/core/config.cpp:99-112 | Some whitelist entry admits the domain, in whatever order the entries are tried. |
| `Servers.AdmitsIff` | src/core/config.cpp:100-106 | An entry admits the domain itself, whatever its expression matches, and every domain whose dotted form stands anywhere in it. |
| `Servers.LastDot` | src/core/protocol/dns_message.cpp:151-167 | Finds the last dot, and none only if there is none. |
| `Servers.LabelsAroundLastDot` | src/core/protocol/dns_message.cpp:151-167 | Every text with a dot splits at the last one: the upper-cased text behind it, and the text in front; one without a dot has no last label and stays whole. |
| `Servers.UpperIs` | src/core/protocol/dns_message.cpp:151-159 | Letters are upper-cased one by one and nothing else changes. |
| `Servers.OpenServersKept` | src/core/config.cpp:96-118 | Exactly the servers neither skipped nor blacklisted are kept, and distinct ids stay distinct. |
| `Servers.SelectedAreConfigured` | src/core/config.cpp:90-121 | Only configured servers that are not skipped are selected, ids stay distinct, and one server alone is chosen exactly when some unskipped server whitelists the domain. |
| `Servers.FirstWhitelistedIs` | src/core/config.cpp:94-112 | The chosen server whitelists the domain and no unskipped one before it does. |
| `RefreshTasks.SingleFlight` | src/core/dns_server.cpp:257-284 | In every state of every run, whatever the addresses, at most one live refresh exists per domain, server address and port. |
| `RefreshTasks.AcceptedIffKeyFree` | src/common/main/taskquque/task_queue.h:105-114 | Whatever the addresses, a refresh is accepted if and only if no live one has its port and its text of domain, slash and underscored address. |
| `RefreshTasks.KeysTellApart` | src/core/dns_server.cpp:264-269 | Between configured servers with distinct ids and no slash in their addresses, refreshes with one key are one refresh. |
| `RefreshTasks.AcceptedIffNotLive` | src/common/main/taskquque/task_queue.h:105-114 | When all refreshes ask configured servers with distinct ids and no slash in their addresses, one is accepted if and only if none for the same domain, address and port is live. |
| `RefreshTasks.LeavesByCompletion` | src/common/main/taskquque/task_queue.h:115-120 | A live task disappears only by completing. |
| `RefreshTasks.DuplicateNeedsCompletion` | src/common/main/taskquque/task_queue.h:105-120 | Whatever the addresses, between two accepted refreshes of the same domain and server the first one completed. |
| `RefreshTasks.PrioritiesDecreaseIff` | src/core/dns_server.cpp:264-269 | The 32-bit priorities of one sync call strictly decrease if and only if it has at most 101 servers. |
| `RefreshTasks.SyncFromRemote` | src/core/dns_server.cpp:257-271 | Submits one task per selected server, in order, with priorities counted down from 100, and nothing else. |
| `RefreshTasks.SyncLossFromRemote` | src/core/dns_server.cpp:273-284 | Does the same for exactly the selected servers whose answers the record lacks. |
| `RefreshTasks.LackedByIs` | src/core/dns_server.cpp:273-276 | Exactly the selected servers whose ids the record does not name, in their order. |
| `RefreshTasks.SyncAsksAll` | src/core/dns_server.cpp:257-284 | After a sync call every one of its servers is being asked about the domain; live tasks stay as they were, and what is new are pending refreshes of its servers with priorities counted down from 100. |
| `RefreshTasks.SubmitAll` | src/core/dns_server.cpp:264-269 | The queue ends up as after that many single submissions, with fresh ids, refused duplicates included. |
| `RefreshTasks.SyncOrder` | src/core/dns_server.cpp:257-284 | For up to 101 servers, accepted tasks of one sync call are dispatched in the order of the servers under every interleaving with other steps. |
| `DiskKv.Store.DoGet` | src/common/main/kv/disk_kv.cpp:18-35 | Returns the live value or nothing, and erases an expired entry it meets. |
| `DiskKv.Store.DoPut` | src/common/main/kv/disk_kv.cpp:41-53 | Stores the text up to its first NUL with a 32-bit expiry second, 0 meaning never. |
| `DiskKv.Store.DoErase` | src/common/main/kv/disk_kv.cpp:54 | Removes exactly that key. |
| `DiskKv.Store.DoClear` | src/common/main/kv/disk_kv.cpp:55-61 | Erasing key by key in any order leaves nothing. |
| `DiskKv.Store.DoList` | src/common/main/kv/disk_kv.cpp:69-79 | Hands out exactly the live entries and changes nothing. |
| `DiskKv.StepAgrees` | src/common/main/kv/disk_kv.cpp:18-79 | One call answers like the plain map and keeps the two indistinguishable from then on. |
| `DiskKv.StoreIsPlainMap` | src/common/main/kv/disk_kv.cpp:18-79 | For every run with a non-decreasing clock, NUL-free values and no 32-bit overflow, all answers equal those of a plain map that never erases on reading. |
| `DiskKv.PlainExpiry` | src/common/main/kv/disk_kv.cpp:36-38 | In that plain map an entry is visible exactly before its expiry second. |
| `DiskKv.ReadBackIff` | src/common/main/kv/disk_kv.cpp:36-53 | For every clock reading and 32-bit time to live, a non-empty value just put is read back if and only if it has no NUL and its expiry is 0 or not over at once after wrapping at 32 bits. |
| `DiskKv.AlwaysAlikeIff` | src/common/main/kv/disk_kv.cpp:18-79 | For every sequence of clock readings: stores that agree at the start answer all fitting calls at these readings like the plain map if and only if the readings, as 32-bit expiries see them, never decrease. |
| `DiskKv.GoingBackShows` | src/common/main/kv/disk_kv.cpp:26-38 | Every decrease, however far apart, is exposed by a store with one entry that is read at every reading. |
| `DiskKv.AlikeFromEmptyIff` | src/common/main/kv/disk_kv.cpp:18-79 | For a store used from its creation the erasure stays hidden if and only if no reading exceeds both an earlier and a later one. |
| `DiskKv.PeakShows` | src/common/main/kv/disk_kv.cpp:26-53 | Every such reading is exposed by an entry put at the earlier one that is over exactly then. |
| `DiskKv.NoPeakHides` | src/common/main/kv/disk_kv.cpp:18-79 | Without such a reading, entries stay live while the clock does not advance, and it never goes back once it has. |
| `DiskKv.ErasureShowsWhenClockGoesBack` | src/common/main/kv/disk_kv.cpp:26-30 | An input: a put at second 5 for one second, read at 6 and again at 5. |
| `RecordStore.RecordManager.constructor` | src/core/dns_record_manager.cpp:99-108 | Both stores start empty. |
| `RecordStore.RecordManager.AddReverse` | src/core/dns_record_manager.cpp:213-219 | Appends the domain to the address's list, with one write, unless it is there. |
| `RecordStore.RecordManager.DoAdd` | src/core/dns_record_manager.cpp:11-25 | The forward record is written last, behind all reverse writes; the log of store writes is exactly the specified one; the addresses are stored until expire + now, if that is below 2^32. |
| `RecordStore.AddedAnswer` | src/core/dns_record_manager.cpp:11-23 | For the domain and server, the addresses are stored with the expiry expire + now in 32 bits; every other stored answer stays. |
| `RecordStore.ReverseAfterAdd` | src/core/dns_record_manager.cpp:17-21 | The domain is appended to the reverse lists of exactly those of the answer's addresses that miss it. |
| `RecordStore.RecordManager.DoRemove` | src/core/dns_record_manager.cpp:173-175 | One write removes the forward record and nothing else. |
| `RecordStore.RemovedDomain` | src/core/dns_record_manager.cpp:173-175 | The domain has no answer any more; all other answers and the reverse index are as before. |
| `RecordStore.RecordManager.DoClear` | src/core/dns_record_manager.cpp:178-180 | Erases the forward records one write at a time, leaving none and the reverse index as it was. |
| `RecordStore.ClearedDomains` | src/core/dns_record_manager.cpp:178-180 | For every order of erasing, exactly the answers of domains not come by are left. |
| `RecordStore.AddReverseKeepsSound` | src/core/dns_record_manager.cpp:213-219 | A reverse write keeps the index sound, indexes the address and forgets no domain. |
| `RecordStore.CallKeepsSound` | src/core/dns_record_manager.cpp:11-25 | Every single write inside `add`, `remove` and `clear` leaves the index sound. |
| `RecordStore.RunKeepsSound` | src/core/dns_record_manager.cpp:11-25 | After every single store write of every run, each address in a forward record lists that record's domain in the reverse index, and no reverse list has duplicates. |
| `Resolution.CompareIsStrictWeakOrder` | src/core/dns_record_manager.h:33-51 | `compare` is irreflexive, asymmetric, transitive, and being unordered is transitive: what `std::sort` demands. |
| `Resolution.CompareIsRank` | src/core/dns_record_manager.h:33-51 | A record goes in front of another if and only if its rank is lower, one number: matching before not, then allowed before forbidden, then by server position. |
| `Resolution.FlattenAll` | src/core/dns_record_manager.cpp:38-59 | The loops deliver the answers of the selected servers, tagged as `FlattenIs` states, and the set of servers that contributed. |
| `Resolution.Choose` | src/core/dns_record_manager.cpp:63-77 | The loop with its `continue`s computes the picked addresses, server and counters of the specification. |
| `Resolution.Fill` | src/core/dns_record_manager.cpp:78-85 | All addresses, each once. |
| `Resolution.Transform` | src/core/dns_record_manager.cpp:33-96 | For some sorted permutation the record is its summary, with shuffled addresses, and names the contributing servers; `ResolutionLaws.ResolveDelivers` says what that makes of every such permutation. |
| `ResolutionLaws.FlattenIs` | src/core/dns_record_manager.cpp:38-59 | With at most 255 servers, a tagged record exists exactly for each address of a selected server's stored answer, in server order. |
| `ResolutionLaws.FlattenIsWellTagged` | src/core/dns_record_manager.cpp:41-58 | With distinct ids, equal positions mean equal server, expiry and flags. |
| `ResolutionLaws.HeadIsLead` | src/core/dns_record_manager.cpp:88-93 | Whatever the unstable sort did, the head's server, flags and expiry are those of the first matching record. |
| `ResolutionLaws.PickWithMatch` | src/core/dns_record_manager.cpp:63-77 | Behind a matching head, exactly the distinct matching addresses of the head's server are taken and counted. |
| `ResolutionLaws.PickWithoutMatch` | src/core/dns_record_manager.cpp:63-77 | Without a match nothing is taken and every record is counted. |
| `ResolutionLaws.UnmatchedOfPermutation` | src/core/dns_record_manager.cpp:60-76 | The number of unmatched records does not depend on the permutation. |
| `ResolutionLaws.EverySortResolves` | src/core/dns_record_manager.cpp:60-93 | Every sorted permutation gives the same server, flags, expiry, counts and address set. |
| `ResolutionLaws.LeadIsFirstMatch` | src/core/dns_record_manager.cpp:41-60 | The lead stems from the first selected server with a matching address, if there is one. |
| `ResolutionLaws.LeadIsFirstAnswer` | src/core/dns_record_manager.cpp:41-60 | Without a match the lead stems from the first selected server whose answer has an address. |
| `ResolutionLaws.UnmatchedFlat` | src/core/dns_record_manager.cpp:46-56 | The records without a match are as many as the addresses in the selected servers' answers that do not match their areas. |
| `ResolutionLaws.ContributorsAre` | src/core/dns_record_manager.cpp:46-57 | The servers named are exactly the selected ones whose stored answer has an address. |
| `ResolutionLaws.PickIsTrusted` | src/core/dns_record_manager.cpp:64-75 | For every list of records, also with forbidden ones: only addresses of matching, allowed records are picked, each once, and counted. |
| `ResolutionLaws.ResolveDelivers` | src/core/dns_record_manager.cpp:33-96 | If any address matches its server's areas: exactly the distinct matching addresses of the first selected server that has one, all trusted, with that answer's server and expiry second; otherwise the distinct union of all selected servers' addresses, none trusted, with server and expiry second of the first answer with an address. Expired if and only if that second is over at `now`; the total is the trusted plus the mismatching addresses. |
| `ServerRuns.Resolve` | src/core/dns_record_manager.cpp:27-32 | Resolving a name from the store delivers that, names exactly the contributing servers, and an empty list exactly when no selected server's answer has an address. |
| `ServerRuns.QueryRecordFromCache` | src/core/dns_server.cpp:227-237 | Delivers for the host, or for the host without its LAN suffix exactly when the host itself has no address. |
| `ServerRuns.NameServedIs` | src/core/dns_server.cpp:227-237 | Only for a name whose text behind the last dot is LAN in any case, and that no selected server's stored answer has an address for, the name in front of that dot is served instead. |
| `ServerRuns.NeverLowerCase` | src/core/dns_server.cpp:231 | The last label, being upper-cased, is never `lan`. |
| `Queries.QueryDnsRecord` | src/core/dns_server.cpp:189-226 | What a client is told is an admissible answer from the store, read again later if there is no address; `localhost` gets none; the queue then holds exactly the refreshes of `AskedAgain`, whose servers `AskedAgainIs` states. |
| `Queries.FreshIff` | src/core/dns_server.cpp:217-223 | The flags of an answer tell exactly whether the first matching selected server's answer is not over yet. |
| `Queries.AskedAgainIs` | src/core/dns_server.cpp:206-223 | All selected servers are asked again if the answer is empty, expired or not trusted; otherwise exactly those without a stored address. |
| `Queries.StaleIsRefreshed` | src/core/dns_server.cpp:189-284 | After a question, in every state of the queue, each selected server is being asked if the client was told nothing or something expired or untrusted, and otherwise each that contributed nothing; other refreshes go on as they were. |
| `ServerRuns.SyncAnswer` | src/core/dns_server.cpp:286-295 | A non-empty remote answer replaces that server's stored answer, for half the time if incomplete; an empty one changes nothing; the index stays sound and the host is resolved from the new store. |
| `ServerRuns.EmptyIffNoAnswer` | src/core/dns_record_manager.cpp:78-85 | The delivered list is empty exactly when no selected server's answer holds an address. |
| `ServerRuns.StoreHoldsLatest` | src/core/dns_record_manager.cpp:11-25 | After every run the store holds, per host and server, exactly the latest answer not since removed. |
| `ServerRuns.LatestWasDelivered` | src/core/dns_server.cpp:286-295 | That answer is of the last event for that host and server that no removal follows: it holds the event's addresses, and its expiry second is the event's time plus its time to live, when below 2^32. |
| `ServerRuns.LatestIff` | src/core/dns_server.cpp:286-295 | There is a latest answer exactly when the last word on host and server is a non-empty answer. |
| `ServerRuns.UnansweredIff` | src/core/dns_server.cpp:227-237 | A name has nothing to serve exactly when no selected server's latest answer holds an address. |
| `ServerRuns.ServedComeFromLatest` | src/core/dns_server.cpp:189-237 | At every point of every run, served addresses come only from the latest answers of selected servers, for the host or, when it has none, for the host without its LAN suffix; nothing is served exactly when there are none. |
| `ServerRuns.ServedExpiry` | src/core/dns_record_manager.cpp:51-92 | Whatever is served with addresses bears the expiry second of the last answering event of the server it names, and is marked expired if and only if that event's time plus its time to live is over. |
| `ServerRuns.LanFallback` | src/core/dns_server.cpp:227-237 | In every run a LAN name without a latest answer is served exactly addresses of latest answers for the name without the suffix, if there are any. |
| `ServerRuns.NothingInvented` | src/core/dns_server.cpp:189-306 | Every served address was delivered by some remote answer of the run for that name. |
| `FanIn.Aggregator.constructor` | src/core/dns_client.cpp:310-312 | The shared state before the first callback. |
| `FanIn.Aggregator.OnAnswer` | src/core/dns_client.cpp:313-328 | One callback counts itself in 16 bits, adds its answer, notes an empty one, and calls the handler with the collected set exactly when the end test holds. |
| `FanIn.Aggregator.Run` | src/core/dns_client.cpp:274-333 | For 2 to 65535 areas and every arrival order, over TCP and TLS, the handler is called once, on the last answer and not before, with the union of all answers and `load_all` exactly when none was empty; from 65536 areas on never. |
| `FanIn.ListOf` | src/core/dns_client.cpp:322 | The elements of the set in strictly increasing order. |
| `FanIn.UnionIs` | src/core/dns_client.cpp:315-322 | An address is in the collected set exactly when some answer holds it. |
| `FanIn.OrderDoesNotMatter` | src/core/dns_client.cpp:278-296 | Union and completeness are the same for every permutation of the answers. |
| `FanIn.SortedListIsUnique` | src/core/dns_client.cpp:322 | Two strictly increasing lists of the same set are equal. |
| `FanIn.TcpDeliversSameList` | src/core/dns_client.cpp:309-331 | Over TCP every arrival order delivers the same list and flag. |
| `FanIn.FiresOnLastOnlyIff` | src/core/dns_client.cpp:286-321 | The end test holds on the last callback and no other if and only if there are fewer than 65536 areas. |
| `Cidr.ParseCidrLine` | src/common/main/utils/area_ip.h:60-68 | A line of address, slash and prefix reads as the range it names for every address and prefix 1 to 32; for every other prefix the shift is undefined. |
| `Cidr.RangeHolds` | src/common/main/utils/area_ip.h:62-66 | The range holds as many addresses from its start on as the prefix leaves free, and none if that would wrap past the last address. |
| `Cidr.AtoiIs` | src/common/main/utils/area_ip.h:64 | `atoi` passes over space, takes one sign, and reads digits up to anything else. |
| `Cidr.PlainAddressLine` | src/common/main/utils/area_ip.h:62-64 | A line without a slash is both address and prefix: its first number is the prefix. |
| `Cidr.RangeIsPrefixIff` | src/common/main/utils/area_ip.h:60-68 | Section 3.1 of RFC 4632: membership means equal prefix bits for every address if and only if the start is aligned. |
| `Cidr.MisalignedLine` | src/common/main/utils/area_ip.h:60-68 | An input: 10.0.0.1/31 covers 10.0.0.2 of another prefix and misses 10.0.0.0 of its own. |
| `Cidr.NestedOrDisjoint` | src/common/main/utils/area_ip.h:60-68 | Any two aligned ranges are nested or disjoint. |
| `Cidr.IsAreaIp` | src/common/main/utils/area_ip.cpp:224-236 | True exactly when some loaded range of the area holds the address. |
| `Cidr.GetArea` | src/common/main/utils/area_ip.cpp:238-248 | The first covering area in the map's iteration order, none for address 0. |
| `Cidr.AreaInIs` | src/common/main/utils/area_ip.cpp:240-247 | The area delivered covers the address and none before it in the iteration order does; without such an area the text is empty. |
| `Cidr.OneAnswerIff` | src/common/main/utils/area_ip.cpp:238-248 | `get_area` gives the same area for every iteration order if and only if the address is 0 or at most one area covers it. |
| `Cidr.OrderMatters` | src/common/main/utils/area_ip.cpp:238-248 | An input: two areas that cover one address, and two orders with different answers. |
| `Cidr.DisjointAreasGiveOneAnswer` | src/common/main/utils/area_ip.cpp:238-248 | When ranges of different areas are disjoint, no answer depends on the iteration order. |
| `LookupPacing.Pacer.constructor` | src/common/main/utils/area_ip.h:97 | Pacing starts with no lookup and any reading of the clock. |
| `LookupPacing.Pacer.DoRequest` | src/common/main/utils/area_ip.cpp:177-216 | Schedules nothing for an address already in flight, else a time after now, and keeps the spacing. |
| `LookupPacing.Pacer.DoFinish` | src/common/main/utils/area_ip.cpp:201 | The end of a lookup frees its address only. |
| `LookupPacing.RunKeepsInv` | src/common/main/utils/area_ip.cpp:177-222 | For every sequence of requests and any clock readings, scheduled times are at least 333 ms apart. |
| `LookupPacing.ScheduledIff` | src/common/main/utils/area_ip.cpp:177-219 | A request schedules a lookup exactly when none is outstanding for its address. |
| `LookupPacing.BacklogBound` | src/common/main/utils/area_ip.cpp:203-208 | In every run, with no clock reading above a limit, n lookups are put off at most 333 n ms past the limit. |
| `LookupPacing.NoTwoOutstanding` | src/common/main/utils/area_ip.cpp:179-201 | No address ever has two lookups outstanding. |
| `LookupPacing.WindowBound` | src/common/main/utils/area_ip.cpp:203-208 | Times at least 333 ms apart leave at most width plus 332 ms worth of them in any window. |
| `LookupPacing.LookupRate` | src/common/main/utils/area_ip.cpp:177-222 | Any window of T > 0 ms of any run holds at most ceil(T/333) scheduled lookups. |

## Left out

- Sockets, TLS sessions, timers, object lifetimes and memory ownership: only the handlers' effect on state is modelled.
- Interleavings inside a handler: a mutex-held or single-threaded handler is one atomic step, and the two lookups of one `query_record_from_cache` call see the same store.
- Floating-point rounding of the token count: tokens are counted in exact thousandths.
- The delay between marking a task as running and calling its executor, and executors that complete a task twice or never start it: the environment completes running tasks only, once each.
- The id generators and their atomics: message ids and task ids are parameters, and task ids are fresh.
- Heap, sort and shuffle internals: only "some maximum", "some sorted permutation" and "some permutation" are used.
- Protobuf and LevelDB internals, and records with NUL bytes, which `put` would cut; the forward and reverse stores are therefore plain maps.
- Truncation of lengths to 32 bits: buffers have at most a few thousand bytes, and lengths are exact numbers except where the code's counters wrap.
- The meaning of records other than A and CNAME: the parser reads any other data of a multiple of four bytes as addresses, and that is what is modelled.
- Questions with compression pointers in the round-trip claims: `MessageLaws.CompressedQuestion` says what a lone pointer reads as; pointers behind labels are read as in records, but relative to the question.
- NameLaws.WrappedRoundTripIff: hosts in which a label of 1 to 63 bytes reaches across a multiple of 256 are not covered, because such a label is written without its bytes, and what is read back may depend on what follows the encoding in memory. They have more than 256 bytes; section 2.3.4 of RFC 1035 allows at most 255. `DomainNames.Generate` says what is written for them.
- NameLaws.RoundTripIff: covers hosts of up to 256 bytes; `NameLaws.WrappedRoundTripIff` covers longer ones.
- MessageBuilding.InitWritesRequest: names whose bounds are changed may be written with other bytes, or another number of them, than reported; `MessageBuilding.UdpRequest.Init` says what memory then holds.
- Cidr.ParseCidrLine: prefixes outside 1 to 32, and those that overflow an int in `atoi`, have no defined range in C++; they are the outcome `Undefined`.
- Cidr.GetArea: the cache of single addresses looked up on the network and the fallback name `default` are not modelled.
- Regular-expression matching of whitelist entries, area downloads, JSON area lookup and the synchronisation of the area file: outside libraries and files; the first is a parameter.
- Matching of an address's area against a server's area patterns: a fixed predicate during one call.
- The time to live of an answer (`cal_expire`): a parameter of the builder.
- The single-area and no-area client paths, forwarding of other query types, the EDNS zone and the DROP path: they add no state.
- Console, configuration loading, logging, statistics, memory pool, shared memory, shell and HTTP helpers, service scripts.
