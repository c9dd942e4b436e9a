# Verified models of the driver library, the AT channel and the SMS codecs

The repository is an Android device tree. Four parts of it carry logic of their own,
and this project models those and proves what they promise.

**Transmit path of the Crystal HD library** (`crystalhd/libcrystalhd`)

- `TxRingSteps`, `TxRing`: the byte ring between the decoder's input and its sender
  thread, once as interleaved steps of a producer and a consumer, once as the object
  that one thread sees.
- `MdataQueue`, `MdataLinks`, `MdataPool`: the 1024 nodes of input meta data between
  the free list, the circular pending list and a caller, and what the pending list
  means as a map from tag to time stamp.
- `MdataMemory`, `MdataThreads`, `MdataAlone`: the same pool as memory that three threads
  change under the library's lock, one section after another, and what becomes of the
  queue when a call is alone and when it is not.
- `AvcStartCode`, `AvcConverter`: length-prefixed AVC turned into start-code form,
  with the state that is carried from call to call.
- `Pes`, `PesSender`: PES packets and elementary-stream pieces, and a reader of the
  packets after section 2.4.3.6 of ISO/IEC 13818-1.
- `NalScan`, `NalParser`: the scan for NAL units in a byte stream (section B.1 of
  ITU-T H.264).
- `RepeatPicture`: which copies of a decoded picture are shown.
- `Nv12`: packed 4:2:2 pixels to two planes, in vectors and pairs, against its meaning
  for each byte.

**AT command channel** (`huawei-generic/atchannel.c`)

- `AtDispatch`, `AtContext`: what a line does to the pending command, as a function and
  on the heap with the list that is reversed in place.
- `AtChannel`, `AtHistory`, `AtResults`, `AtProgress`, `AtText`: the reader and any number of command
  threads as steps of a protocol, with mutexes, condition variables, signals and the
  static text buffer; who holds what, what becomes of the lines, what a command returns,
  who gets on, and whose text is written.
- `AtModem`: the protocol with a modem that answers each line once, and for which command
  an answer is taken.
- `AtLines`, `AtWindow`, `AtReader`: lines of the stream, and the fixed buffer that cuts
  them out of whatever `read()` returns.

**SMS codecs** (`huawei-generic/sms.c`, `gsm.c`, `sms_gsm.c`)

- `HexBits`, `HexBuffer`, `CdmaPdu`, `CdmaEncoder`, `CdmaDecoder`, `CdmaRoundTrip`: bit
  fields over hex digits, and CDMA PDUs written and read with them.
- `GsmBits`, `GsmSeptets`, `GsmAlphabet`, `GsmText`: septets packed at any bit offset,
  and ASCII text through the GSM alphabet and back.
- `Utf8`: the UTF-8 writer and checker, and UCS-2 to UTF-8.
- `GsmRope`, `SmsDeliver`, `SmsReader`: the rope that counts or stores, the two passes that
  build an SMS-DELIVER PDU, and a reader of it after 3GPP TS 23.040.

**FCP templates** (`huawei-generic/fcp_parser.c`, `misc.c`): `Fcp`.

`Bytes` holds what several modules share.

Each operation that changes state is a method on fields, arrays or list nodes, and its
contract ties the new state to a function; the theorems are lemmas about those
functions. Protocols are step relations, and their theorems hold for every run.

## What came out differently from the comments and names in the code

- A pop of more than is there returns with `flushLock` held: no later pop takes a step
  (`TxRingSteps.RefusedPopBarsTheConsumer`).
- `DtsPrepareMdata` is busy exactly when the caller holds all 1024 nodes
  (`MdataPool.Pool.Prepare`). The comparison with the oldest node's tag reads
  `MDLastFetchTag` when the list is empty, because the list's sentinel overlays the
  context; the method models that.
- The loop that clears lost pictures ends at once for numbers above 32777, since its
  16-bit counter is negative there; below, it reaches the tags 10 to 109 under the one
  fetched, where its comment says 110 (`MdataQueue.FetchIsLookup`).
- Tags stay increasing in the pending list exactly until the counter wraps with
  something pending (`MdataQueue.SendKeepsOrderIff`), which it does after 65535 sends
  (`MdataQueue.WrapBreaksOrder`).
- A fetch reads the head of the pending list before it takes the lock. While its searches
  begin at what still is the head, all runs of a sending, a fetching and a clearing thread
  keep both lists (`MdataThreads.FreshRunsKeepLists`); a search from another head does the
  same exactly when nothing with the tag stands in front of that head, or, where it is no
  longer pending, when neither the pending list nor the way from it has the tag
  (`MdataMemory.StaleHeadIff`). A fetch and a clearing can so free one node twice
  (`MdataThreads.OverlapBreaks`, `MdataThreads.SomeRunBreaks`).
- The lines of the AT stream do not depend on how `read()` divides it exactly when no
  line but a bare prompt begins with the SMS prompt (`AtLines.ChunkingIrrelevantIff`).
- An AVC unit whose length is not below the size of the chunk it begins in keeps its
  length bytes; a unit of one byte switches the conversion off; an empty last unit is
  an error (`AvcStartCode.ConvertUnits`, `AvcStartCode.BegunUnitConvertsIff`).
- A CDMA message survives exactly when it has at most 255 characters, all of seven bits
  (`CdmaRoundTrip.BufferRoundTripIff`); a number exactly when it has at most 255 of
  `0-9 * # .` (`CdmaRoundTrip.NumberRoundTripIff`).
- Text through the GSM alphabet survives exactly when it has characters of the basic
  table and at most one of the extension, at the end: the reader never leaves the
  extension table (`GsmAlphabet.TextRoundTripIff`). NUL takes the escape's place in the
  table, which the condition takes into account.
- `utf8_to_gsm7` returns the bit behind the last septet, not the number of septets, when
  it writes (`GsmText.Utf8ToGsm7`).
- A rope that grows out of its built-in 16 bytes loses what was in them: what was written
  survives growth, whatever new memory holds, exactly when it was not in the built-in
  storage or there was nothing (`GsmRope.SurvivesIff`); the two-pass build never grows.
- A PDU in UCS-2 has one byte more than its length says, because the length is written
  twice (`SmsDeliver.Ucs2LengthShort`).
- A property of an FCP template is held against the end of the stream, not of the
  template: one that reaches over the template's end is taken exactly when the stream is
  as long as its length byte announces (`Fcp.ReachesOver`, `Fcp.ReachesOverIff`).
- A scan for NAL units in a buffer of zeros looks at the byte behind it, and takes it for
  the end of a start code if it is a one: `DtsParseAVC` leaves its buffer exactly when that
  has nothing but zeros, at least two, a one behind them, and is the first or has at most
  three (`NalScan.OutsideIff`).
- The text of a command is formatted into a static buffer before the wait for
  `requestmutex`, which gives up the lock: of two commands that wait, the first can send
  the second's text (`AtText.OwnLineIff`, `AtText.TextIsLost`).
- Without a handler for the end of the stream nobody signals it, and a command without a
  time limit that waits then never returns (`AtProgress.StrandedIff`); the stream can
  leave such a command waiting exactly when no handler is set (`AtProgress.StrandsIff`).
- A command that runs out of time returns so even if its final response has come
  (`AtResults.EveryResultMeans` says what each result means).
- A command that gives up leaves its answer to the next one (`AtModem.LateAnswerGoesOn`);
  an answer is taken for its own command exactly when no earlier line is unanswered
  (`AtModem.OwnAnswerIff`), and always where every command waits for its answer
  (`AtModem.PatientRunsGetTheirOwn`).
- A chunk of AVC that ends in a length field, or right behind it, is an error
  (`AvcStartCode.ChunkConvertsIff`).

## Model

| member | source | states |
|---|---|---|
| TxRingSteps.EveryRunIsSafe | crystalhd/libcrystalhd/libcrystalhd_priv.cpp:2362-2455 | in every state of every interleaving of one producer and one consumer: free and busy bytes add up to the size outside the lock and stay in range, the regions being written and read are disjoint, what has been pushed is the data of the pushes that found room, one behind the other, the bytes popped are a prefix of it and with the consumer at rest as long as its calls asked for, and at rest the ring holds exactly the difference |
| TxRingSteps.ReachableInv | crystalhd/libcrystalhd/libcrystalhd_priv.cpp:2332-2455 | every reachable state satisfies the inductive invariant: pointers, counters, lock and stored bytes agree with the stream positions of both ends |
| TxRingSteps.ApplyInv | crystalhd/libcrystalhd/libcrystalhd_priv.cpp:2362-2455 | each step of a push or a pop, byte of a memcpy, pointer update or counter update, keeps the invariant |
| TxRingSteps.RegionsAreApart | crystalhd/libcrystalhd/libcrystalhd_priv.cpp:2373-2451 | while a push copies, its target holds no slot of a byte still to be read, and does not meet the region a pop is reading |
| TxRingSteps.PushTargetIsFree | crystalhd/libcrystalhd/libcrystalhd_priv.cpp:2380-2401 | the slot written next holds no byte that is still unread |
| TxRingSteps.PopReadsNext | crystalhd/libcrystalhd/libcrystalhd_priv.cpp:2429-2450 | the byte a pop copies next is the next byte of the stream |
| TxRingSteps.PopDelivers | crystalhd/libcrystalhd/libcrystalhd_priv.cpp:2410-2455 | an accepted pop that has come to rest delivered exactly the next bytes of the stream, whatever the producer did meanwhile |
| TxRingSteps.PushDelivers | crystalhd/libcrystalhd/libcrystalhd_priv.cpp:2362-2405 | a push of data that fits makes the stream end in that data, whatever the consumer does meanwhile; one that does not fit changes nothing |
| TxRingSteps.PushedIsOffered | crystalhd/libcrystalhd/libcrystalhd_priv.cpp:2362-2405 | over any run the stream grows by the data of its accepted pushes, taken from the calls and the free counter alone |
| TxRingSteps.QuietToQuietIsFifo | crystalhd/libcrystalhd/libcrystalhd_priv.cpp:2362-2455 | between two quiet states, what was waiting and then the data of the pushes is what was popped, all that was asked for, and then waits |
| TxRingSteps.RefusedPopBarsTheConsumer | crystalhd/libcrystalhd/libcrystalhd_priv.cpp:2418-2421 | after a pop of more than busySize no pop takes a step in any run |
| TxRingSteps.PushProgress | crystalhd/libcrystalhd/libcrystalhd_priv.cpp:2362-2405 | a push in progress can step or waits for a pop that is about to release the lock, and every step brings its end nearer |
| TxRingSteps.PopProgress | crystalhd/libcrystalhd/libcrystalhd_priv.cpp:2410-2455 | the same for a pop |
| TxRingSteps.DrainBuffered | crystalhd/libcrystalhd/libcrystalhd_priv.cpp:2429-2446 | reading the ring from the read position over the wrap gives the stretch of the stream it holds |
| TxRing.TxBuffer.Init | crystalhd/libcrystalhd/libcrystalhd_priv.cpp:2332-2354 | a new ring is empty and all of it free |
| TxRing.TxBuffer.Push | crystalhd/libcrystalhd/libcrystalhd_priv.cpp:2362-2405 | what is pushed is appended to the contents, or refused when it does not fit and nothing changes |
| TxRing.TxBuffer.PushSegment | crystalhd/libcrystalhd/libcrystalhd_priv.cpp:2374-2401 | one of the two memcpys with its pointer and counter updates appends its segment |
| TxRing.TxBuffer.Pop | crystalhd/libcrystalhd/libcrystalhd_priv.cpp:2410-2455 | what is popped is the head of the contents and the rest remains, the target beyond it untouched, or the pop is refused and nothing changes |
| TxRing.TxBuffer.PopSegment | crystalhd/libcrystalhd/libcrystalhd_priv.cpp:2423-2450 | one of the two memcpys takes its segment off the head |
| TxRing.TxBuffer.Flush | crystalhd/libcrystalhd/libcrystalhd_priv.cpp:2459-2469 | the ring is empty and all of it free |
| TxRing.AppendSegment | crystalhd/libcrystalhd/libcrystalhd_priv.cpp:2380-2400 | a segment stored at the write position is the end of the contents, with or without wrap |
| MdataQueue.FetchIsLookup | crystalhd/libcrystalhd/libcrystalhd_priv.cpp:1972-2030 | on increasing tags a fetch returns the stamp filed under the number and leaves the map without that tag and the tags 10 to 109 below it (none for numbers above 32777), order kept; an unknown number changes nothing |
| MdataQueue.SendFiles | crystalhd/libcrystalhd/libcrystalhd_priv.cpp:2078-2116 | every send, at the wrap too, gives up exactly the tags of the oldest entries it drops and files its time stamp under the next tag; where that tag is still pending, which takes a wrap, the older stamp stays |
| MdataQueue.FetchIsOfItsPacket | crystalhd/libcrystalhd/libcrystalhd_priv.cpp:921-945 | in every run from an empty list, what a fetch returns is the stamp of a packet that was sent and whose tag, its number modulo 65535, is the one asked for; within 65535 tagged packets, of the packet of that number |
| MdataQueue.CleanOldIsKeep | crystalhd/libcrystalhd/libcrystalhd_priv.cpp:2008-2027 | the clearing loop with its 16-bit counter removes exactly the stale tags |
| MdataQueue.RemoveTagIsKeep | crystalhd/libcrystalhd/libcrystalhd_priv.cpp:2016-2024 | on increasing tags, removing the first node with a tag removes the tag |
| MdataQueue.LoopStops | crystalhd/libcrystalhd/libcrystalhd_priv.cpp:2011-2014 | where the clearing loop ends, no stale tag is left to remove |
| MdataQueue.RunOrderly | crystalhd/libcrystalhd/libcrystalhd_priv.cpp:921-935 | over every run of at most 65535 tagged packets, with sends, failed sends, fetches and clears, pending tags are nonzero, increasing and at most the last one issued |
| MdataQueue.SendKeepsOrderIff | crystalhd/libcrystalhd/libcrystalhd_priv.cpp:921-935 | a send keeps the tags increasing if and only if the counter does not wrap or nothing stays pending |
| MdataQueue.WrapBreaksOrder | crystalhd/libcrystalhd/libcrystalhd_priv.cpp:921-935 | the wrap is reached: any 65535 sends from the start leave something pending with the tags in order, and the next send breaks that order |
| MdataQueue.MapOfKeep | crystalhd/libcrystalhd/libcrystalhd_priv.cpp:1972-2030 | dropping tags from the list drops them from the map |
| MdataLinks.ForwardRemove | crystalhd/libcrystalhd/libcrystalhd_priv.cpp:1955-1959 | the forward link assignment takes a node out of the circle and leaves the others in order |
| MdataLinks.BackwardRemove | crystalhd/libcrystalhd/libcrystalhd_priv.cpp:1955-1959 | the same for the backward link |
| MdataLinks.ForwardInsert | crystalhd/libcrystalhd/libcrystalhd_priv.cpp:1934-1937 | the link assignments of an insertion put a node at the end of the forward circle |
| MdataLinks.BackwardInsert | crystalhd/libcrystalhd/libcrystalhd_priv.cpp:1934-1937 | the same for the backward circle |
| MdataPool.Pool.constructor | crystalhd/libcrystalhd/libcrystalhd_priv.cpp:889-919 | all nodes are free, chained and none pending |
| MdataPool.Pool.Alloc | crystalhd/libcrystalhd/libcrystalhd_priv.cpp:1804-1839 | the head of the free list, cleared; with none free the oldest pending node if the last fetch is past the disorder gap; otherwise nothing |
| MdataPool.Pool.Free | crystalhd/libcrystalhd/libcrystalhd_priv.cpp:1844-1857 | the node goes to the head of the free list |
| MdataPool.Pool.Insert | crystalhd/libcrystalhd/libcrystalhd_priv.cpp:1928-1942 | the node goes to the end of the pending list, both circles stay well formed |
| MdataPool.Pool.Remove | crystalhd/libcrystalhd/libcrystalhd_priv.cpp:1947-1964 | the node leaves the pending list wherever it stands, the others keep their order, and it is free |
| MdataPool.Pool.ClearPending | crystalhd/libcrystalhd/libcrystalhd_priv.cpp:1862-1888 | the pending list is empty and its nodes are free |
| MdataPool.Pool.GarbageCollect | crystalhd/libcrystalhd/libcrystalhd_priv.cpp:1894-1923 | the oldest 769 pending nodes, or all if there are fewer, are freed |
| MdataPool.Pool.SetIntTag | crystalhd/libcrystalhd/libcrystalhd_priv.cpp:921-935 | the next tag, never zero, in the node and in the two bytes of its packet |
| MdataPool.Pool.AllocOrCollect | crystalhd/libcrystalhd/libcrystalhd_priv.cpp:2086-2098 | an allocation repeated after a collection fails if and only if every node is with the caller |
| MdataPool.Pool.Prepare | crystalhd/libcrystalhd/libcrystalhd_priv.cpp:2078-2116 | busy if and only if the caller holds all nodes; else a node with the next tag and the time stamp, and which oldest entries were given up for it |
| MdataPool.Pool.SendSPESPkt | crystalhd/libcrystalhd/libcrystalhd_if.cpp:1798-1867 | with no node checked out it succeeds; a delivered packet's entry is appended, an undelivered one leaves none |
| MdataPool.Pool.FindPending | crystalhd/libcrystalhd/libcrystalhd_priv.cpp:1992-2006 | with no other call in between, the walk finds the first pending node with the tag, or the sentinel |
| MdataPool.Pool.Fetch | crystalhd/libcrystalhd/libcrystalhd_priv.cpp:1972-2030 | with no other call in between, the pool's pending list, status and time stamp are those of the abstract fetch |
| MdataPool.Pool.ClearLost | crystalhd/libcrystalhd/libcrystalhd_priv.cpp:2009-2027 | with no other call in between, the loop over the tags from ten below the fetched one removes the entries the abstract cleaning removes, and no others |
| MdataPool.PartitionRemove | crystalhd/libcrystalhd/libcrystalhd_priv.cpp:1947-1964 | free list, pending list and checked-out nodes go on partitioning the pool |
| MdataPool.FreshPartition | crystalhd/libcrystalhd/libcrystalhd_priv.cpp:901-916 | the pool as built has every node in the free list |
| MdataThreads.FreshRunsKeepLists | crystalhd/libcrystalhd/libcrystalhd_priv.cpp:1804-2116 | in every interleaving of a sending, a fetching and a clearing thread whose searches begin at what still is the pending head once they have the lock: no NULL is followed, free list, pending list and the sender's node make up the pool, and every stamp fetched is that of a packet with the tag asked for |
| MdataThreads.StepGood | crystalhd/libcrystalhd/libcrystalhd_priv.cpp:1804-2116 | each step of the three threads keeps that: every allocation, tagging, insertion, freeing, each node that a collection or a clearing gives up, each read of the head, and each search from the actual head |
| MdataThreads.OverlapBreaks | crystalhd/libcrystalhd/libcrystalhd_priv.cpp:1990-2007 | wherever anything is pending and nobody holds the lock, a fetch that reads the head before a clearing and searches after it follows a NULL or leaves no free list and pending list |
| MdataThreads.SomeRunBreaks | crystalhd/libcrystalhd/libcrystalhd_priv.cpp:1862-2007 | such a run exists from the start: one packet, one fetch and one clearing |
| MdataAlone.FetchAlone | crystalhd/libcrystalhd/libcrystalhd_priv.cpp:1972-2030 | a fetch of the threads with no other call in between leaves the queue, the last fetch and the time stamp of the abstract fetch |
| MdataAlone.SendAlone | crystalhd/libcrystalhd/libcrystalhd_priv.cpp:2078-2116 | a send alone, collection and all, leaves the queue of the abstract one: its entry filed if the packet goes out, the same oldest ones given up |
| MdataAlone.ClearAlone | crystalhd/libcrystalhd/libcrystalhd_priv.cpp:1862-1888 | a clearing alone leaves nothing pending and all else as it was |
| MdataAlone.SearchTakes | crystalhd/libcrystalhd/libcrystalhd_priv.cpp:1994-2026 | a search from the actual head takes out the first entry with its tag and no other, whatever the other threads are in; the first of a fetch returns its stamp |
| MdataAlone.SearchTakesOnly | crystalhd/libcrystalhd/libcrystalhd_priv.cpp:2009-2027 | in every run whose searches begin at the head, what a fetch takes out has the tag asked for or one of the 10 to 109 below it |
| MdataAlone.EveryFetchSearches | crystalhd/libcrystalhd/libcrystalhd_priv.cpp:1990-2027 | in every run, a fetch that has come to its end has looked for its number once, and if it found it for exactly the stale tags besides |
| MdataAlone.CallsGoOn | crystalhd/libcrystalhd/libcrystalhd_priv.cpp:1804-2116 | a call can take a step whenever the lock is open or its own |
| MdataMemory.SearchRightIff | crystalhd/libcrystalhd/libcrystalhd_priv.cpp:1994-2007 | a search from any head does what one from the pending head would if and only if both walks come to the same node, or both to none |
| MdataMemory.StaleHeadIff | crystalhd/libcrystalhd/libcrystalhd_priv.cpp:1992-2026 | the same as a condition on head and lists: for a head that is pending, nothing in front of it has the tag; for another, neither the pending list nor the nodes linked from it have it |
| MdataMemory.SearchKeepsLists | crystalhd/libcrystalhd/libcrystalhd_priv.cpp:1994-2026 | a search that comes to a pending node, or to none, keeps free list and pending list |
| MdataMemory.RemovedHeadBreaks | crystalhd/libcrystalhd/libcrystalhd_priv.cpp:1947-2007 | a search from a freed former head that still has the tag follows a NULL or leaves no lists |
| MdataMemory.RemovedLists | crystalhd/libcrystalhd/libcrystalhd_priv.cpp:1947-1964 | the assignments take any pending node to the head of the free list and the others stay in order, in the memory that all threads share |
| MdataMemory.TakenLists | crystalhd/libcrystalhd/libcrystalhd_priv.cpp:1808-1811 | taking the free head keeps the lists, and the node points nowhere |
| MdataMemory.InsertedLists | crystalhd/libcrystalhd/libcrystalhd_priv.cpp:1928-1942 | the assignments put a caller's node at the end of the pending list and keep the free list |
| AvcStartCode.ConvertUnits | crystalhd/libcrystalhd/libcrystalhd_parser.cpp:567-696 | a chunk of whole units becomes the byte stream of the units if and only if no unit has one byte and the last is not empty; otherwise it is taken for a byte stream, or refused |
| AvcStartCode.ConvertNal | crystalhd/libcrystalhd/libcrystalhd_parser.cpp:567-696 | the turn of the loop for one unit |
| AvcStartCode.StreamConverts | crystalhd/libcrystalhd/libcrystalhd_parser.cpp:530-702 | a stream cut within or between its units, each shorter than the chunk it begins in, becomes the byte stream of its units, wherever the cuts are |
| AvcStartCode.ConvertChunk | crystalhd/libcrystalhd/libcrystalhd_parser.cpp:530-702 | one call gives its chunk's share of the byte stream and carries what is missing of the last unit |
| AvcStartCode.BegunUnitConvertsIff | crystalhd/libcrystalhd/libcrystalhd_parser.cpp:627-696 | a unit begun in a chunk gets its start code if and only if its length is below the chunk's size |
| AvcStartCode.ChunkConvertsIff | crystalhd/libcrystalhd/libcrystalhd_parser.cpp:567-696 | a chunk that ends so many bytes into a packed unit converts to its share if and only if it reaches behind the length field and is longer than the unit; ending in the field or right behind it, it is an error |
| AvcStartCode.ChunkEnds | crystalhd/libcrystalhd/libcrystalhd_parser.cpp:567-696 | there are no other chunks: every first part of a packed stream ends so many bytes into one of its units |
| AvcStartCode.StreamLength | crystalhd/libcrystalhd/libcrystalhd_parser.cpp:530-702 | the output is longer by 4 less the length size for every unit |
| AvcStartCode.BigEndianEncode | crystalhd/libcrystalhd/libcrystalhd_parser.cpp:631-636 | the size loop reads back the length that was written |
| AvcStartCode.CutIsPiece | crystalhd/libcrystalhd/libcrystalhd_parser.cpp:530-702 | chunk and share are pieces of the packed stream and of the byte stream |
| AvcConverter.PesConvParams.EnsurePending | crystalhd/libcrystalhd/libcrystalhd_parser.cpp:547-559 | a pending buffer of at least twice the data |
| AvcConverter.PesConvParams.Turn | crystalhd/libcrystalhd/libcrystalhd_parser.cpp:567-696 | one turn of the loop on the buffers keeps what the call is going to make of the chunk; with lengths of two bytes or more it never finds the buffer full |
| AvcConverter.PesConvParams.AddH264SCode | crystalhd/libcrystalhd/libcrystalhd_parser.cpp:530-702 | buffer, size, carry and status are those of the conversion function; the overflow error occurs only for one-byte lengths or when twice the size wraps 32 bits |
| Pes.PtsRoundTrip | crystalhd/libcrystalhd/libcrystalhd_parser.cpp:86-120 | the five bytes hold the low 33 bits of the time stamp, with prefix and marker bits in place |
| Pes.PacketReads | crystalhd/libcrystalhd/libcrystalhd_if.cpp:1966-2034 | a packet is read, by its own flags and length fields, as its payload, its time stamp, its private data, extension field and stuffing; its length field counts the bytes behind it and stays within the bound |
| Pes.HeaderReads | crystalhd/libcrystalhd/libcrystalhd_if.cpp:1966-2031 | the optional fields are read as they were written |
| Pes.PacketsRead | crystalhd/libcrystalhd/libcrystalhd_if.cpp:1921-2070 | a reader of all packets of a call finds the data whole and in order, and time stamp, private data, extension field and stuffing in the first packet only |
| Pes.PrefixRead | crystalhd/libcrystalhd/libcrystalhd_if.cpp:2037-2069 | the packets accepted before a send fails carry a prefix of the data |
| Pes.PacketLengths | crystalhd/libcrystalhd/libcrystalhd_if.cpp:1977-1991 | every packet's length field is the number of bytes behind it, at most 0xFFF0, and just that for all but the last |
| Pes.PiecesJoin | crystalhd/libcrystalhd/libcrystalhd_if.cpp:1936-1957 | the pieces of an elementary stream are the data |
| Pes.PiecesAtMostTwo | crystalhd/libcrystalhd/libcrystalhd_if.cpp:1936-1957 | one piece, or two if the data begin off a word boundary and are longer than the alignment buffer; the second begins on one |
| PesSender.Sender.FillPacket | crystalhd/libcrystalhd/libcrystalhd_if.cpp:1966-2034 | the alignment buffer holds exactly the packet |
| PesSender.Sender.PutFlags | crystalhd/libcrystalhd/libcrystalhd_if.cpp:2001-2010 | both flag bytes of the extension are set without disturbing the bytes between |
| PesSender.Sender.PutExtras | crystalhd/libcrystalhd/libcrystalhd_if.cpp:2012-2031 | private data, extension field and stuffing follow one another |
| PesSender.Sender.SendPes | crystalhd/libcrystalhd/libcrystalhd_if.cpp:1870-2073 | what goes out are the call's packets up to the first send that fails, with the status the code returns; when all sends are accepted a reader finds the data, the extras, and the time stamp's low 33 bits if it is not zero or SoftRave is set, none otherwise; on LINK one that is not zero goes out in a packet of its own and not in these |
| PesSender.Sender.SendEs | crystalhd/libcrystalhd/libcrystalhd_if.cpp:1934-1957 | an elementary stream goes out in pieces up to the first send that fails, and when none does the pieces join to the data |
| PesSender.ResultIs | crystalhd/libcrystalhd/libcrystalhd_if.cpp:2037-2070 | the sends go through up to the first that does not, and the call fails if and only if that is refused |
| NalScan.ScanUnit | crystalhd/libcrystalhd/libcrystalhd_parser.cpp:991-1104 | in front of a unit of a stream the scan returns the unit's length, type and prefix to the byte, and passes all of it with its trailing zeros |
| NalScan.CutUnit | crystalhd/libcrystalhd/libcrystalhd_parser.cpp:991-1104 | in any buffer that begins with a start code, what is found is a unit: prefix, NAL and zeros up to the next start code, in its 4-byte form if it has one, or the end |
| NalScan.CutStream | crystalhd/libcrystalhd/libcrystalhd_parser.cpp:991-1104 | the units of such a buffer partition its bytes |
| NalScan.LeadingZeros | crystalhd/libcrystalhd/libcrystalhd_parser.cpp:1024-1043 | zeros before the start code are passed in the first scan and refused in any other |
| NalScan.GetNaluAdvances | crystalhd/libcrystalhd/libcrystalhd_parser.cpp:1045-1103 | what is found ends behind its start code and inside the buffer |
| NalScan.ParseFinds | crystalhd/libcrystalhd/libcrystalhd_parser.cpp:1106-1154 | on a stream of units, be it the first call or a later one, DtsParseAVC stops behind the first unit of a wanted type, or fails when there is none |
| NalScan.ZerosPassed | crystalhd/libcrystalhd/libcrystalhd_parser.cpp:1106-1154 | zeros in front of a 4-byte start code change nothing in the first call but the offset, and fail any other |
| NalScan.OutsideIff | crystalhd/libcrystalhd/libcrystalhd_parser.cpp:1004-1015 | the parse leaves its buffer if and only if that holds nothing but zeros, at least two, with a one behind them, and it is the first call or there are at most three |
| NalParser.FindBSStartCode | crystalhd/libcrystalhd/libcrystalhd_parser.cpp:977-989 | true exactly for that many zeros and a one |
| NalParser.NextStartCode | crystalhd/libcrystalhd/libcrystalhd_parser.cpp:1045-1060 | the first start code behind the position and which form it has, or the end |
| NalParser.MeasureUnit | crystalhd/libcrystalhd/libcrystalhd_parser.cpp:1017-1103 | length, type and return value of the scan, with the zeros counted backwards never leaving the unit |
| NalParser.Scanner.GetNaluType | crystalhd/libcrystalhd/libcrystalhd_parser.cpp:991-1104 | the method computes the scan function; where it leaves the buffer, and only for such a buffer, it returns one more than the size, a length of zero and the type found two bytes behind |
| NalParser.Scanner.ParseAVC | crystalhd/libcrystalhd/libcrystalhd_parser.cpp:1106-1154 | on every buffer it does not leave, the loop advances, ends and returns what the parse function says |
| RepeatPicture.ShownIff | crystalhd/libcrystalhd/libcrystalhd_priv.cpp:703-816 | over every run of copies of one picture, a copy behind the first is shown if and only if the fields up to it are a subsequence of the pulldown pattern, and flagged as the last picture if and only if the end is looked for and it is at least the 16th not shown |
| RepeatPicture.ShownAtMost | crystalhd/libcrystalhd/libcrystalhd_priv.cpp:726-745 | however many copies come behind the first, no more are shown than the pattern has fields, and none from that many on |
| RepeatPicture.LeftIff | crystalhd/libcrystalhd/libcrystalhd_priv.cpp:726-745 | taking each field at its first place in what is left of the pattern finds every subsequence |
| RepeatPicture.Checker.TakeField | crystalhd/libcrystalhd/libcrystalhd_priv.cpp:726-745 | the search that shifts the flag two bits at a time is the search in the list of fields |
| RepeatPicture.Checker.LoadPattern | crystalhd/libcrystalhd/libcrystalhd_priv.cpp:749-796 | the byte loaded holds, two bits each and the first one lowest, the fields that the pulldown value stands for |
| RepeatPicture.Checker.CheckRptPic | crystalhd/libcrystalhd/libcrystalhd_priv.cpp:703-816 | return value, last-picture flag and all state of one call |
| Nv12.Copy422ToNV12 | crystalhd/libcrystalhd/libcrystalhd_int_if.cpp:1549-1670 | every byte of both planes is the byte of its pixel; padding, an odd last column and what lies below are untouched |
| Nv12.PixelMeaning | crystalhd/libcrystalhd/libcrystalhd_int_if.cpp:1549-1670 | the planes by row and column: luma the even bytes of every row, chroma the odd bytes of even rows |
| Nv12.Block | crystalhd/libcrystalhd/libcrystalhd_int_if.cpp:1566-1606 | masking or shifting lanes and packing with saturation picks the even or the odd bytes of 16 pixels |
| Nv12.BothRow | crystalhd/libcrystalhd/libcrystalhd_int_if.cpp:1560-1620 | the 16-pixel loop and the tail loop together make the first row of a pair |
| Nv12.LumaRow | crystalhd/libcrystalhd/libcrystalhd_int_if.cpp:1626-1665 | the same for the luma of the second row |
| AtChannel.EveryRunExcludes | huawei-generic/atchannel.c:934-1049 | in every run of the reader and any number of command threads the slot is filled only while its thread owns requestmutex, no two threads share a mutex, no empty slot is looked into, and no command is told that another is pending |
| AtChannel.LocksStep | huawei-generic/atchannel.c:1015-1049 | every step keeps the mutexes with those whose state says they hold them |
| AtChannel.SlotStep | huawei-generic/atchannel.c:934-1008 | every step keeps the slot filled exactly for the thread that occupies it |
| AtHistory.EveryRunDeliversLines | huawei-generic/atchannel.c:362-419 | in every run each answer lists in arrival order exactly the lines accepted for its command, at most one for NUMERIC and SINGLELINE; its final response is the last that arrived; the handler got exactly the unsolicited lines |
| AtHistory.HistoryStep | huawei-generic/atchannel.c:362-419 | every step keeps the answers and the pending response in agreement with the log of lines |
| AtHistory.DispatchTells | huawei-generic/atchannel.c:362-419 | a line added to the pending response is a line added to its part of the log |
| AtHistory.OldTells | huawei-generic/atchannel.c:934-1008 | an answer already given is not changed by later lines |
| AtResults.EveryResultMeans | huawei-generic/atchannel.c:964-1046 | in every run, of a command that is about to return: it had no text exactly when its arguments format to none; else, if it did not run out of time, it succeeds exactly when the stream is open and its last final response is OK or CONNECT, gets an error exactly when that is another one, the closed result exactly when the stream is closed, the write error exactly when nothing final came; with a final response it has been given, exactly when it wants one, the reply that the lines during it make; only a timed one runs out of time, and gets no reply |
| AtResults.WaitingLine | huawei-generic/atchannel.c:362-419 | in every run, a line sends a PDU exactly when it is the first prompt of a waiting command that has one, and then that one; the handler gets it exactly when it is neither that, nor final, nor part of the reply |
| AtResults.NobodyWaits | huawei-generic/atchannel.c:366-368 | nothing else sends a PDU, and the handler gets every line while nobody waits |
| AtResults.HearsLine | huawei-generic/atchannel.c:362-419 | a line leaves in the slot the reply that all lines so far make: the last final one, and of those that fit the type, all or the first |
| AtResults.ResultsStep | huawei-generic/atchannel.c:934-1049 | each step of the protocol keeps what the threads stand for |
| AtProgress.NoLostWakeUp | huawei-generic/atchannel.c:944-1005 | in every run no wake-up is lost: a thread that waits unwoken on requestcond has another thread own requestmutex, one that waits unwoken on commandcond has neither its final response nor the reader's end |
| AtProgress.WakesStep | huawei-generic/atchannel.c:934-1008 | every step keeps it so that who waits unwoken on requestcond waits for an owner of requestmutex, and who waits unwoken on commandcond for a final response or the reader's end |
| AtProgress.NoDeadlock | huawei-generic/atchannel.c:934-1049 | in every run, with a thread inside a command, the holder of commandmutex can step; or the thread can, or waits for the modem, or waits behind the owner of requestmutex, which can step or waits for the modem |
| AtProgress.InternalRunsEnd | huawei-generic/atchannel.c:934-1049 | however they are interleaved, steps that need no new line, call, retry or close come to an end, within a bound that the state gives |
| AtProgress.AtRestWaits | huawei-generic/atchannel.c:934-1049 | where they end, whoever has not returned waits for the modem or behind one that does, and after the end of the stream with a handler set everybody has returned |
| AtProgress.StrandedIff | huawei-generic/atchannel.c:596-611 | after the end of the stream, a command without a time limit never returns, short of at_close, if and only if its response has not come and the end was not noted, which takes that no handler is set |
| AtProgress.StrandsIff | huawei-generic/atchannel.c:596-610 | for every command without a time limit: some run leaves it waiting for ever, short of at_close, after the end of the stream, if and only if no handler is set |
| AtProgress.OneFinalWaiter | huawei-generic/atchannel.c:970-975 | only the owner of requestmutex waits on commandcond, so the one signal reaches it |
| AtText.OwnLineIff | huawei-generic/atchannel.c:1022-1041 | in every run the line about to be written is the caller's own if and only if nothing was formatted since, or last the same text; a command that never had to wait is safe |
| AtText.EveryLineIff | huawei-generic/atchannel.c:964-964 | the same of every line that a run has written |
| AtText.TextIsLost | huawei-generic/atchannel.c:948-949 | for any two formatted commands that wait behind a third there is a run in which the first writes the text of the second |
| AtModem.OwnAnswerIff | huawei-generic/atchannel.c:362-419 | with a modem that gives one final line for each line written, in order: in every run a final line about to be processed was given for the latest command if and only if no earlier command has one still to come |
| AtModem.PatientRunsGetTheirOwn | huawei-generic/atchannel.c:966-1005 | in every run in which no command leaves before its answer has come, every final response was taken for the command it was given for |
| AtModem.LateAnswerGoesOn | huawei-generic/atchannel.c:975-978 | for any two commands, the first with a time limit, there is a run in which the second is given the first one's final response |
| AtContext.Context.ProcessLine | huawei-generic/atchannel.c:362-419 | a line goes to exactly one of unsolicited, intermediate, final and prompt, and the context changes accordingly |
| AtContext.Context.TakesAsIntermediate | huawei-generic/atchannel.c:381-416 | which lines a pending command takes, by its type and whether it has one already |
| AtContext.Context.AddIntermediate | huawei-generic/atchannel.c:254-268 | the line goes to the head of the list |
| AtContext.ATResponse.ReverseIntermediates | huawei-generic/atchannel.c:913-926 | the list is reversed in place, the same nodes in the opposite order |
| AtContext.Context.HandOver | huawei-generic/atchannel.c:986-994 | the response is handed over with its lines in the opposite order and the slot is empty |
| AtContext.Context.ClearPendingCommand | huawei-generic/atchannel.c:744-754 | response, prefix and PDU are gone |
| AtContext.StrStartsWith | huawei-generic/misc.c:24-31 | true exactly for a prefix |
| AtContext.StartsWithOneOf | huawei-generic/atchannel.c:276-318 | true exactly when some entry of the table is a prefix |
| AtLines.ChunkingIrrelevantIff | huawei-generic/atchannel.c:428-593 | the lines are the same under every division of the stream by read() if and only if the stream is prompt-safe |
| AtLines.LinesBack | huawei-generic/atchannel.c:452-593 | the lines of a stream are those written into it, whatever CRs and LFs stand behind each and in front |
| AtLines.RunIsLines | huawei-generic/atchannel.c:452-593 | the lines of a run over any chunks of a prompt-safe stream are the nonempty stretches between line ends of the whole stream |
| AtLines.ExtractThenLines | huawei-generic/atchannel.c:452-593 | taking the lines in the buffer first changes nothing |
| AtLines.UnsafeSplits | huawei-generic/atchannel.c:428-439 | a stream that is not prompt-safe has a division that changes its lines |
| AtWindow.RunAfterYield | huawei-generic/atchannel.c:452-593 | a run goes on behind the line of one readline from the text that is left |
| AtWindow.FitsSuffix | huawei-generic/atchannel.c:452-593 | what is left of a stream whose lines fit is one |
| AtReader.LineReader.ReadLine | huawei-generic/atchannel.c:452-593 | one call on the fixed buffer returns the next line of the text and reads so far, every write in bounds, and throws the buffer away only when a line does not fit |
| AtReader.LineReader.ReadAll | huawei-generic/atchannel.c:612-655 | for a stream without NUL whose lines fit the buffer and that is prompt-safe, the reader's lines are the lines of the stream; each is handed to processLine, or with the line behind it to the handler if it begins an SMS |
| AtDispatch.SettledSms | huawei-generic/atchannel.c:628-648 | the two lines of an SMS are one delivery, wherever they stand in the stream |
| AtReader.LineReader.Turn | huawei-generic/atchannel.c:495-578 | one turn of the loop: ditch if full, read, look for a line end |
| AtReader.LineReader.DitchIfFull | huawei-generic/atchannel.c:499-508 | the buffer is thrown away exactly when no room is left, which lines that fit never cause |
| AtReader.LineReader.TakeLine | huawei-generic/atchannel.c:580-592 | the line up to its end, and the cursor behind it |
| AtReader.SeesMore | huawei-generic/atchannel.c:552-568 | what the buffer shows after one more read |
| AtReader.NextRound | huawei-generic/atchannel.c:612-655 | one more call of readline extends the lines of the run by its line |
| HexBits.NumberField | huawei-generic/sms.c:42-56 | what is read from a field is what was written, modulo its width |
| HexBits.FieldSplit | huawei-generic/sms.c:51-56 | a wide field is the fields of its parts |
| HexBits.OrSets | huawei-generic/sms.c:35-40 | ORing a bit into a digit sets that bit of the digit and no other |
| HexBits.NumberOfByte | huawei-generic/sms.c:89-92 | a byte from two digits is the number of their bits |
| HexBuffer.SetBit | huawei-generic/sms.c:35-40 | one bit is ORed in, every other bit of the buffer stays |
| HexBuffer.SetBits | huawei-generic/sms.c:51-56 | a field is ORed in at its place, at any alignment |
| HexBuffer.GetBit | huawei-generic/sms.c:24-31 | the bit at that place of the string |
| HexBuffer.GetBits | huawei-generic/sms.c:42-49 | the number of that stretch of bits |
| HexBuffer.SetThenGet | huawei-generic/sms.c:42-56 | writing into zeros and reading gives the value modulo the width and leaves both sides alone |
| CdmaEncoder.EncodeDigitOf | huawei-generic/sms.c:70-76 | the first place of the digit in the table, or zero |
| CdmaEncoder.EncodeNumber | huawei-generic/sms.c:78-87 | the buffer holds the number's fields behind what was written, filled up to whole bytes, and the byte count covers them |
| CdmaEncoder.EncodeBearer | huawei-generic/sms.c:134-162 | the buffer holds the bearer data behind what was written, with every sub-parameter length in place, and the byte count covers it |
| CdmaEncoder.EncodeUserData | huawei-generic/sms.c:147-157 | the user data sub-parameter, its length patched in afterwards |
| CdmaEncoder.CloseParam | huawei-generic/sms.c:193-202 | writing a length over zeros left open leaves the value behind it alone |
| CdmaEncoder.EncodeCdmaSms | huawei-generic/sms.c:183-205 | the digits up to the NUL are exactly the bits of the PDU, all parameters one behind the other; they name the teleservice 0x1002, and read back the receiver exactly when it has at most 255 characters of the table, and the message exactly when it has at most 255 of seven bits |
| CdmaDecoder.GetCodeAndLength | huawei-generic/sms.c:89-92 | identifier and length of a parameter as fields of eight bits |
| CdmaDecoder.DecodeNumberAt | huawei-generic/sms.c:58-68 | the digits that the specification reads there |
| CdmaDecoder.ReadUserData | huawei-generic/sms.c:101-119 | the characters in each of the encodings |
| CdmaDecoder.DecodeBearerData | huawei-generic/sms.c:94-132 | text and voice mail flag as the specification reads them |
| CdmaDecoder.DecodeCdmaSms | huawei-generic/sms.c:164-181 | sender, message and voice mail flag as the specification reads them |
| CdmaRoundTrip.BufferRoundTripIff | huawei-generic/sms.c:164-205 | for every number and message whose PDU fits the 512 digits, decoding gives the message, the default sender and no voice mail flag if and only if the message has at most 255 characters, all of seven bits |
| CdmaRoundTrip.PduFields | huawei-generic/sms.c:183-205 | in every PDU that fits: type zero, teleservice 0x1002 at bit 8, the receiver's parameter at bit 40, which reads back exactly when it has at most 255 characters of the table, a zero parameter, the bearer data |
| CdmaRoundTrip.BearerFields | huawei-generic/sms.c:134-162 | in the bearer data: a message that is sent with the sum of its characters as number, the user data, and two zero parameters, each where the lengths say |
| CdmaRoundTrip.SenderTaken | huawei-generic/sms.c:176-177 | a sender's number in its parameter is taken as it comes back |
| CdmaRoundTrip.VoiceMailTaken | huawei-generic/sms.c:122-128 | a count of waiting messages sets the voice mail flag, and its second bit if it is not zero |
| CdmaRoundTrip.PduRoundTrip | huawei-generic/sms.c:164-205 | what decoding gives for any message: its characters reduced to seven bits, its length to eight |
| CdmaRoundTrip.BearerRoundTrip | huawei-generic/sms.c:94-162 | the text of the bearer data comes back, wherever it stands |
| CdmaRoundTrip.NumberRoundTripIff | huawei-generic/sms.c:58-87 | decoding undoes the encoding of a number if and only if it has at most 255 characters of the table |
| CdmaRoundTrip.UserDataRoundTrip | huawei-generic/sms.c:94-162 | the characters written seven bits apart are those read |
| GsmSeptets.BWriter.constructor | huawei-generic/gsm.c:751-764 | the bits below the start are kept |
| GsmSeptets.BWriter.Add7 | huawei-generic/gsm.c:766-778 | seven bits are appended to the bits written, bytes above the cursor stay |
| GsmSeptets.BWriter.Done | huawei-generic/gsm.c:780-790 | the bits written are in the buffer, filled up with zeros to a whole byte |
| GsmSeptets.ReadSeptet | huawei-generic/gsm.c:604-611 | the seven bits from any shift, reading the next byte only when the septet reaches it |
| GsmBits.OrApart | huawei-generic/gsm.c:769-769 | ORing bits that do not overlap is adding them |
| GsmText.Utf8ToGsm7 | huawei-generic/gsm.c:793-827 | without a destination the number of septets; with one, the packed septets of the text from the offset on, the bits below and the bytes above unchanged |
| GsmText.Utf8FromGsm7 | huawei-generic/gsm.c:593-632 | the count and the UTF-8 bytes of the characters of the septets at the offset, reading no byte behind the last septet |
| GsmText.SeptetsBack | huawei-generic/gsm.c:593-632 | the septets read are the septets packed, from any bit offset |
| GsmText.PackedBack | huawei-generic/gsm.c:751-790 | the same through the bytes, with the bits below the offset preserved |
| GsmText.PackedTextIff | huawei-generic/gsm.c:593-827 | packed ASCII text reads back if and only if it is sendable |
| GsmAlphabet.TextRoundTripIff | huawei-generic/gsm.c:512-632 | text turned into septets and back is itself if and only if it is sendable: basic characters, and at most one of the extension at the end, NULs around it aside |
| GsmAlphabet.EscapedSame | huawei-generic/gsm.c:613-620 | behind an escape only NULs come back |
| GsmAlphabet.UnicharToGsm7 | huawei-generic/gsm.c:535-545 | the first place of the character in the basic table, or -1 |
| GsmAlphabet.UnicharToGsm7Extend | huawei-generic/gsm.c:547-557 | the same for the extension table |
| GsmAlphabet.TablesApart | huawei-generic/gsm.c:512-532 | no character but zero is in both tables |
| GsmAlphabet.OwnPlace | huawei-generic/gsm.c:512-545 | digits, letters and the signs that stand in the alphabet as in ASCII become themselves |
| GsmAlphabet.MovedPlaces | huawei-generic/gsm.c:512-545 | the three that stand elsewhere |
| GsmAlphabet.EscapedPlaces | huawei-generic/gsm.c:525-557 | the nine that stand behind the escape |
| GsmAlphabet.NoPlace | huawei-generic/gsm.c:812-822 | those that have no place become a space |
| Utf8.Utf8Write | huawei-generic/gsm.c:383-414 | the bytes of a value at the offset, or only their number |
| Utf8.Utf8Check | huawei-generic/gsm.c:426-466 | one exactly for a sequence of lead bytes with their continuations |
| Utf8.EncodeDecode | huawei-generic/gsm.c:383-466 | what is written is accepted and decodes, after section 3 of RFC 3629, to the values |
| Utf8.Ucs2ToUtf8 | huawei-generic/gsm.c:468-481 | the count is the number of bytes, with or without a buffer, and the bytes are those of the code units |
| Utf8.Ucs2RoundTrip | huawei-generic/gsm.c:468-481 | every UCS-2 string survives |
| GsmRope.Rope.InitAlloc | huawei-generic/gsm.c:203-220 | zeroed storage of the size asked for, or the built-in one |
| GsmRope.Rope.Ensure | huawei-generic/gsm.c:254-277 | storage larger by halves, with the old bytes and behind them what the memory held; nothing of the old bytes when they were in the built-in storage |
| GsmRope.SurvivesIff | huawei-generic/gsm.c:259-267 | what was written survives the growth, whatever new memory holds, if and only if it was not in the built-in storage or there was nothing |
| GsmRope.Rope.CanGrow | huawei-generic/gsm.c:279-295 | true exactly with storage, which then has room, and is the same if it had room before |
| GsmRope.Rope.AddC | huawei-generic/gsm.c:297-304 | the position advances by one, with or without storage; the storage, grown if need be, has the byte at the position and is otherwise as it was |
| GsmRope.Rope.Add | huawei-generic/gsm.c:306-313 | the same for a run of bytes |
| GsmRope.Rope.Reserve | huawei-generic/gsm.c:315-328 | the position advances, and what was written stays |
| SmsDeliver.AddAddress | huawei-generic/sms_gsm.c:327-337 | length, type and digits of the address, an odd number filled up |
| SmsDeliver.AddDeliver | huawei-generic/sms_gsm.c:848-925 | with or without storage the position advances by the PDU's size; storage of that size holds the PDU, to the last bit in the GSM alphabet |
| SmsDeliver.CreateDeliver | huawei-generic/sms_gsm.c:928-970 | the second pass fills to its end the storage that the first one counted, without growing it, with the PDU |
| SmsDeliver.DeliverTextIff | huawei-generic/sms_gsm.c:848-925 | the text in the PDU reads back, behind header and pad, if and only if it is sendable |
| SmsDeliver.LengthCovers | huawei-generic/sms_gsm.c:877-900 | the user data length counts header, pad and text in septets, and the reserved bytes are those |
| SmsDeliver.Ucs2LengthShort | huawei-generic/sms_gsm.c:906-924 | in UCS-2 one byte more follows than the length counts |
| SmsReader.Deliver7Reads | huawei-generic/sms_gsm.c:848-900 | a PDU in the GSM alphabet is read, after sections 9.1.2.5, 9.2.2.1 and 9.2.3.24.1 of 3GPP TS 23.040, with the sender's digits, type and time stamp, the parts it was written for, a length that counts the septets, and the text's septets behind the pad |
| SmsReader.Deliver16Reads | huawei-generic/sms_gsm.c:848-925 | the same in UCS-2, its characters behind the second length |
| SmsReader.AddressReads | huawei-generic/sms_gsm.c:327-337 | the semi-octets of the address are the digits, and the one behind an odd number of them is 0xf |
| Fcp.WalkIsFold | huawei-generic/fcp_parser.c:60-120 | the walk over printed properties is the fold of their updates in order, up to the first that fails, and goes on behind them |
| Fcp.TemplateIsFold | huawei-generic/fcp_parser.c:28-123 | the same from the whole template that fills its stream |
| Fcp.FieldsMean | huawei-generic/fcp_parser.c:60-116 | the conversion of any properties succeeds exactly when each converts, and then each field is that of the last property that has it, by the file descriptor bytes of section 11.1.1.4.3 of ETSI TS 102 221; else it ends with the error of the first that does not |
| Fcp.TlvBack | huawei-generic/misc.c:143-169 | parsing a TLV undoes its printing, wherever it stands |
| Fcp.ReadTlv | huawei-generic/misc.c:143-169 | tag and extent of the object, or an error when it does not fit |
| Fcp.FcpToTs51011 | huawei-generic/fcp_parser.c:28-123 | the loop returns the fields, or the error of the first violation |
| Fcp.ReachesOver | huawei-generic/fcp_parser.c:60-66 | for every template that ends inside a property, wherever the stream ends behind it: the property is taken as if it were inside when the stream is as long as its length byte announces, and is an error when not |
| Fcp.ReachesOverIff | huawei-generic/fcp_parser.c:60-66 | so a property over the end that converts is converted if and only if the stream is long enough |

## Left out

- TxRing.TxBuffer.Push: the NULL checks and allocation failure; in `TxRingSteps` a push reads the free counter once, as the code does, without a lock.
- TxRing.TxBuffer.Flush: only between calls; a flush beside a pop in progress is not part of the interleaving model.
- MdataPool.Pool.Prepare: calls do not overlap, and the same holds of every method of the pool, of Fetch, FindPending and ClearLost in particular, which read the head before they lock; overlapping calls are in `MdataThreads`.
- MdataThreads.FreshRunsKeepLists: one thread of each kind; the time stamp, written behind the section that sets the tag, is written with it; the trace counter and the packet bytes; a walk that comes to no end is cut after 1024 nodes.
- MdataPool.Pool.Insert: nodes are numbers and the two links are sequences over them, reassigned one link at a time as the code does; addresses are not modelled.
- MdataPool.Pool.SendSPESPkt: the packet's other bytes, those for VC-1, and the pause between attempts.
- DtsFetchTimeStampMdata and DtsFetchMdata's other outputs are not part of this model.
- AvcConverter.PesConvParams.AddH264SCode: allocation failure, and the gate in DtsAddStartCode that picks it.
- PesSender.Sender.SendPes: a header of more than 246 bytes, which would wrap the 8-bit cursor (the library sets at most 25), data within 300 bytes of 4 GB, and the PAUSE state; DtsSendData never returns the BUSY that the loop provides for.
- NalParser.Scanner.GetNaluType: the branch that skips the start code.
- NalParser.Scanner.ParseAVC: what it does once its first scan has left the buffer, where the size that remains wraps around.
- RepeatPicture.Checker.CheckRptPic: the other places that reset its counters, on timeouts and restarts.
- Nv12.Copy422ToNV12: widths below 15 with vector instructions, where the loop bound wraps around; the aligned and unaligned branches store the same.
- DtsCopy420ToYUY2, DtsCopy420ToUYVY and DtsCopy422ToUYVY have no clean meaning for each pixel and are left out; fast_memcpy is a copy.
- DtsSetSpsPps, the VC-1 converter and the start-code search for other codecs are not part of this model.
- AtHistory.EveryRunDeliversLines: lines the reader's loop hands to the handler as an SMS never reach the protocol; the parsing of error codes.
- AtResults.EveryResultMeans: the number that an error response is parsed to, which is one result here; allocation failure, and a call from the reader's own thread.
- AtProgress.NoLostWakeUp: a time limit is the possibility that a wait ends, not a clock value; reopening a closed channel.
- AtText.OwnLineIff: a text that vsnprintf cannot format, and writes that end early; the static buffer is shared by all contexts of the process, of which the repository opens one, and the model has one.
- AtText.EveryLineIff: with the same one context.
- AtProgress.StrandsIff: at_set_on_reader_closed is called after at_open has started the reader; whether the handler is set means whether it is when the stream ends.
- AtModem.OwnAnswerIff: a modem that answers a line twice or never, or answers out of order.
- AtContext.Context.ProcessLine: the handler and writeCtrlZ are recorded as calls; what they do is not modelled.
- AtReader.LineReader.ReadLine: poll, its timeout, errors of read() and NUL bytes in the stream, for which only the bounds are proved.
- CdmaDecoder.DecodeCdmaSms: a PDU that would be read past its end, and digits other than 0-9 and A-F; the output buffers' sizes.
- CdmaEncoder.EncodeCdmaSms: numbers and messages whose PDU does not fit the buffer, which the code does not prevent.
- GsmText.Utf8ToGsm7: bytes above 127, since utf8_next does not end on a continuation byte; characters of both tables are covered for ASCII.
- Splitting a long message into parts, utf8_skip, and the SMS-DELIVER reader, which takes the sender for a service centre, are not part of this model.
- gsm_int_from_bcdi and gsm_bcdnum_to_ascii do not undo their encoders and are left out; the other BCD and hex helpers are easy.
- GsmRope.Rope.Ensure: allocation failure and with it the rope's error flag.
- Pes.PacketReads: a reader of those optional fields that the library writes; a packet that announces others is no packet to it.
- SmsReader.Deliver7Reads: a reader of a header that holds the parts of a message and nothing else, and no service centre.
- Fcp.FcpToTs51011: what is left in the output when an error is returned.
- Ioctls, firmware, shared memory, kernel modules and sensors are I/O around hardware and are left out.
