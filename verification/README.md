# What the collected execution counts mean

The program records Intel PT bytes per processor, cuts them into tasks at PSB packets, decodes the tasks
in threads of its own or on remote clients, and adds up how often each instruction ran. This project models
the stateful code between the trace rings and the report, and proves what it guarantees for every
interleaving, every way the stream is chunked, and every answer memory may give.

| modules | what they are about |
|---|---|
| `SentinelRing` | the ring reader without a write index, against a producer that runs between any two accesses, and the polling loop |
| `PsbScanner`, `Splitter` | the scan for PSB packets, and the splitter thread over any resumable scanner |
| `PageCache`, `CacheTransparency`, `CacheLoads`, `MemCacherObject` | the page cache over memory that may fail: as transitions, its properties over histories, and as the object |
| `DecodeLoop`, `CachedDecode` | the decode loop, and decoding through a cache that persists between tasks |
| `CountMaps`, `SparseMaps` | count maps, what they mean as multisets of locations, and the conversion and merge loops |
| `ClientProtocol` | server agent, wires, client loops and workers as one step system; a run is any sequence of enabled steps |
| `TaskConservation`, `ClientOrder`, `MemRouting`, `MemExactlyOnce`, `MemSharing` | what holds in every run of it |
| `DecodingWorkers` | the same client with workers that really decode through their caches, as a refinement of it |
| `ClientAgents`, `PoolConservation` | the agents and pool as objects, and the pool as a step system of client protocols |
| `LocalPipeline` | rings, splitters, queue, workers and merge composed, and compared with the pool |
| `ModuleLookup`, `ModuleReport` | the cached module lookup and the report lines |
| `Basics`, `Bags` | bytes, options, sums of multisets |

A function whose name ends in `Step` is one atomic action of the program; it is `None` where that action is
not enabled. Fields marked "history" record what happened and are not part of the program's state.

## Where the code falls short of what one would expect

Each item is the code's behaviour as it stands, with the exact condition under which it does no harm.

- Two workers that wait for the same address overwrite each other's entry. The first is then released without
  data, and the second reply ends the client's receive loop or blocks it. No run does this exactly when no address
  may be asked for by two workers (`MemSharing.SafeIffDisjoint`).
- A read released without data still reports full length, and so does a read the server could not do, for which
  it sends zeros. Such a page enters the cache and stays there until it is cleared
  (`CacheLoads.ErrorIsCachedAsZeros`, `CacheLoads.ErrorIsServedAgain`). Reads within a cached page return memory
  exactly when the reply to that page's one load began with the page's memory
  (`CacheLoads.RemoteReadsAreMemoryIff`).
- `last_page` is never assigned, so a read in page zero follows the raw pointer. Reads within a page are
  transparent exactly outside page zero (`CacheLoads.TransparentIffNotPageZero`).
- `get_content` adds the counts of its two parts, so the sum need not be the length of a prefix. It is one, for
  every memory and cache, exactly when the read stays in one page or its second part is empty
  (`CacheTransparency.CountIsPrefixIff`).
- `has_result` answers "empty". `get_result` therefore skips clients that hold something: it hands out everything
  held if and only if no client holds anything at its check (`ClientAgents.AllHandedOutIff`). Nothing is lost by
  that, whatever lands when (`ClientAgents.GetResultConserves`), and conservation is proved for any timing of
  `fetch_result`.
- A task given to `decode` before the first client has connected is dropped
  (`PoolConservation.LostExactlyWhileThereIsNoClient`).
- A run of ten 0xFF bytes can stop the ring reader for good; in a ring of at least ten cells exactly then, and in a
  shorter one also when it is full of 0xFF (`SentinelRing.StuckIffTenSentinels`).
- The splitter never sends its last segment (`Splitter.Tasks` is all segments but the last).
- Module ranges include `base + size`, so the answer at an address two modules share depends on the queries
  before it (`ModuleLookup.NeighboursClash`, `ModuleLookup.TransparentIffNoClash`).
- The report's lines are names and offsets. With disjoint ranges it has one line per executed address, for every
  map, if and only if module names are unique and no module named "dummy" has an offset that is an address outside
  all modules (`ModuleReport.ReportCompleteIff`).

## Model

| member | source | states |
|---|---|---|
| `SentinelRing.Ring.Poison` | src/pt_ctrl/mod.rs:302-304 | putting the sentinel back frees exactly the consumed cell: the ring stays consistent with its producer |
| `SentinelRing.Ring.CellAhead` | src/pt_ctrl/mod.rs:289-291 | what the cell j places ahead shows, including windows longer than the ring: a produced byte or the sentinel |
| `SentinelRing.Window` | src/pt_ctrl/mod.rs:288-296 | what was visible when the window began is found, and what is found is an unread byte visible by its end |
| `SentinelRing.FetchByte` | src/pt_ctrl/mod.rs:286-305 | one iteration delivers the next byte of the stream or leaves everything as it was |
| `SentinelRing.FetchData` | src/pt_ctrl/mod.rs:284-308 | with a producer running between any two accesses: the bytes returned are the next bytes of the stream, at least those readable at the start and at most those readable of what was produced by the end |
| `SentinelRing.WhereItStops` | src/pt_ctrl/mod.rs:286-299 | the unread bytes are at most nine sentinels, or begin with ten |
| `SentinelRing.AtMostNineStay` | src/pt_ctrl/mod.rs:286-299 | without a run of ten sentinels at most nine bytes stay unread |
| `SentinelRing.LaterBytesRelease` | src/pt_ctrl/mod.rs:286-299 | once nine more bytes that the ring has room for have been produced, a fetch delivers all that had stayed |
| `SentinelRing.StuckIffTenSentinels` | src/pt_ctrl/mod.rs:286-299 | no fetch delivers anything again, whatever the ring can still take in, if and only if its unread bytes begin with ten sentinels or it is full of sentinels; with ten cells or more, if and only if the former |
| `SentinelRing.Poll` | src/pt_ctrl/mod.rs:337-342 | read_pos stays the consumed count modulo the ring length; what was handed over is what was consumed |
| `SentinelRing.Sweep` | src/pt_ctrl/mod.rs:335-348 | every ring is polled unless the sweep ends the loop, which it does exactly when the processor refuses on every ring |
| `SentinelRing.PollLoop` | src/pt_ctrl/mod.rs:334-353 | the loop ends with the first such sweep, with consistent rings, and has handed over every byte consumed and none that was not produced; refusals do not carry over |
| `PsbScanner.SyncDecoder.SyncForward` | src/data_spliter/mod.rs:8 | moves to the next PSB or fails at the end |
| `PsbScanner.Split` | src/data_spliter/mod.rs:4-14 | the loop collects exactly the scanner's offsets |
| `PsbScanner.PsbIsEightPairs` | src/data_spliter/mod.rs:8 | what is searched for is the bytes 02 82, eight times |
| `PsbScanner.ScanFindsPsbs` | src/data_spliter/mod.rs:8-12 | each offset is a PSB, and they do not overlap |
| `PsbScanner.ScanMissesNone` | src/data_spliter/mod.rs:8-12 | each PSB of the buffer is reported or overlaps a reported one that starts before it |
| `Splitter.ChunkStep` | src/bin/online_proc.rs:65-83 | for any resumable scanner, rescanning kept bytes plus a chunk sends what the whole stream adds and keeps what the whole stream keeps |
| `Splitter.SplitterThread` | src/bin/online_proc.rs:58-87 | the thread sends the tasks of the concatenated chunks and keeps the rest |
| `Splitter.ChunkIndependence` | src/bin/online_proc.rs:58-87 | two ways of cutting a stream give the same tasks and the same kept bytes |
| `Splitter.TasksAndKeptAreTheStream` | src/bin/online_proc.rs:70-83 | tasks followed by the kept bytes are the stream from its first PSB |
| `Splitter.PsbScanIsResumable` | src/data_spliter/mod.rs:4-14 | the PSB scanner is ordered, stable under append, and resumable at each packet |
| `Splitter.TasksStartAtPsb` | src/bin/server.rs:110-126 | each task starts with a PSB, and a scan of the task finds no other |
| `Splitter.TasksAreBetweenPsbs` | src/bin/online_proc.rs:74-80 | the i-th task is the bytes from the i-th PSB found up to the next, and the last PSB starts none |
| `PageCache.OnePageKeeps` | src/mem_cacher/mod.rs:35-68 | a read keeps whole pages in the boxes, the raw pointer valid and last_page unchanged |
| `PageCache.GetKeeps` | src/mem_cacher/mod.rs:70-82 | the same for a read of two parts |
| `CacheTransparency.OnePageTransparent` | src/mem_cacher/mod.rs:35-68 | a read within a non-zero page whose calls are answered with memory is the direct read, and every cached page stays equal to memory |
| `CacheTransparency.GetTransparent` | src/mem_cacher/mod.rs:70-82 | the same across a page boundary |
| `CacheTransparency.AnsweredCallsSuffice` | src/mem_cacher/mod.rs:21-82 | over every history of reads, installs and clears, with readers that may change and fail: if the calls really made were answered as memory answers them, each read returns what the uncached read split at the boundary returns |
| `CacheTransparency.CacheIsTransparent` | src/mem_cacher/mod.rs:21-82 | so it does with any reader whose answers do not change |
| `CacheTransparency.FullCountIsMemory` | src/mem_cacher/mod.rs:70-82 | a return equal to the requested length means the buffer is memory, for readers that are honest about reads within a page |
| `CacheTransparency.FullReadsThroughCache` | src/mem_cacher/mod.rs:70-82 | so it does over every history through the cache whose calls were answered by such a reader |
| `CacheTransparency.CountIsPrefixIff` | src/mem_cacher/mod.rs:76-81 | the first `count` bytes are memory, for every memory, honest reader and sound cache, if and only if the read stays in one page or its second part is empty |
| `CacheTransparency.SecondPartOnly` | src/mem_cacher/mod.rs:76-81 | for every other read there is a memory whose first page cannot be read and a count that is no prefix length |
| `CacheLoads.TransparentIffNotPageZero` | src/mem_cacher/mod.rs:38-40 | reads within a page are transparent for every memory and cache state exactly outside page zero |
| `CacheLoads.PageZeroIsLastLoad` | src/mem_cacher/mod.rs:38-40 | after every history a read in page zero returns bytes of the page that was loaded last |
| `CacheLoads.NothingWithoutReader` | src/mem_cacher/mod.rs:62-64 | after a clear and before the next install a read leaves the buffer alone and returns 0, also across a page boundary |
| `CacheLoads.NoPageIsLoadedTwice` | src/mem_cacher/mod.rs:42-61 | between clears the pages loaded are the pages cached, each once, and last_page is 0 |
| `CacheLoads.RemoteRequests` | src/decode_proc/mod.rs:110-119 | on the remote path every request is for a whole non-zero page, and no page is requested twice between clears |
| `CacheLoads.RemoteIsGood` | src/decode_proc/mod.rs:110-119 | the remote reader is steady, coherent and honest when every request is answered with memory |
| `CacheLoads.RemoteReadsAreMemoryIff` | src/server_consumer/client_proc.rs:32-43 | in every history, reads within a cached page return memory if and only if the reply to the page's one load began with its memory; no reply counts as zeros |
| `CacheLoads.RemoteRunIsMemory` | src/decode_proc/mod.rs:110-119 | when each load really made was answered with memory, every read of the history returns memory |
| `CacheLoads.ErrorIsCachedAsZeros` | src/server_consumer/client_proc.rs:39-42 | a page whose reply never came is cached as zeros and reported as read |
| `CacheLoads.ErrorIsServedAgain` | src/server_consumer/client_proc.rs:57-62 | and every later read in that page, in any later task, returns zeros and reports success until the cache is cleared |
| `CacheLoads.PagesStay` | src/mem_cacher/mod.rs:42-61 | a cached page never changes until the cache is cleared |
| `MemCacherObject.MemCacher.GetContentInCacheItem` | src/mem_cacher/mod.rs:28-33 | fills exactly the caller's range |
| `MemCacherObject.MemCacher.LoadPage` | src/mem_cacher/mod.rs:44-64 | the load, with its direct-read fallback, is the transition on values |
| `MemCacherObject.MemCacher.GetContentInOnePage` | src/mem_cacher/mod.rs:35-68 | in place, on any part of the buffer, the transition on values |
| `MemCacherObject.MemCacher.GetContent` | src/mem_cacher/mod.rs:70-82 | fills the buffer and changes the cache as the transition on values says |
| `MemCacherObject.MemCacher.ClearData` | src/mem_cacher/mod.rs:21-26 | leaves the empty cache |
| `DecodeLoop.CountIp` | src/decode_proc/mod.rs:56-65 | both branches of the counter update add one execution of the address |
| `DecodeLoop.DecodeSynced` | src/decode_proc/mod.rs:52-92 | with a decoder whose instructions use up a finite trace and whose resyncs strictly advance, the loop ends, and adds and counts exactly the instructions up to its end |
| `DecodeLoop.Decode` | src/decode_proc/mod.rs:15-93 | the same with the first synchronisation |
| `DecodeLoop.CountsUpToFirstStop` | src/decode_proc/mod.rs:73-90 | what is counted are the instructions before the first answer that is fatal or whose resync fails |
| `DecodeLoop.AdvancingLoopEnds` | src/decode_proc/mod.rs:73-85 | such a decoder gives finitely many answers |
| `DecodeLoop.CountedIsDecoded` | src/decode_proc/mod.rs:52-92 | what the loop counts is what those answers say |
| `DecodeLoop.CountedByAnswer` | src/decode_proc/mod.rs:53-90 | an instruction is counted, Nosync and BadQuery both go on where a successful resync leads, and any other error ends the loop |
| `DecodeLoop.TaskCountsItsInstructions` | src/decode_proc/mod.rs:26-92 | a task counts every instruction that next gives after a first synchronisation that succeeds, and nothing after one that fails |
| `DecodeLoop.GivesOnce` | src/decode_proc/mod.rs:52-91 | those answers are determined |
| `DecodeLoop.StandingResyncNeverEnds` | src/decode_proc/mod.rs:74-85 | for either code, a resync that succeeds where it stands keeps the loop going for ever |
| `DecodeLoop.DecodeAddsHistogram` | src/decode_proc/mod.rs:52-93 | decode adds the histogram of the decoded addresses, and the total grows by the returned count |
| `DecodeLoop.ProcTask` | src/server_consumer/client_proc.rs:63-88 | a worker's response is the sparse form of the task's counts |
| `CachedDecode.PlayIsDirect` | src/decode_proc/mod.rs:37-52 | any decoder gives the same answers through a sound cache as against memory, if the calls really made are answered with memory |
| `CachedDecode.CachePersistenceIsInvisible` | src/server_consumer/client_proc.rs:57-72 | each task's answers are then those of decoding it alone, whatever the worker decoded before |
| `CachedDecode.PlayGivesTheAnswers` | src/decode_proc/mod.rs:39-52 | playing a decoder gives each of its answers once and in order, and none of its reads |
| `CachedDecode.CountedByIsCountedTask` | src/server_consumer/client_proc.rs:66-72 | what is counted of a machine's answers is what decode counts: all instructions after a first synchronisation that succeeds |
| `CachedDecode.FailedSyncCountsNothing` | src/decode_proc/mod.rs:106-109 | answers that begin with a failed synchronisation count nothing, whatever follows |
| `CachedDecode.TaskCountsAreFixed` | src/bin/online_proc.rs:44-53 | so the counts of a task are the same on every worker, with whatever readers and caches |
| `CachedDecode.DecodeAllSteady` | src/decode_proc/mod.rs:30-37 | a reader whose answers do not change meets the condition |
| `DecodingWorkers.LoadThenRead` | src/mem_cacher/mod.rs:42-61 | a read that misses is the read that finds the page after it was loaded |
| `DecodingWorkers.ReadAsksForTwoAtMost` | src/mem_cacher/mod.rs:70-82 | a page that has arrived is not missing any more, so a read asks for its two pages at most |
| `DecodingWorkers.DirectIsPlayDirect` | src/decode_proc/mod.rs:52-92 | decoding step by step against memory is the direct play |
| `DecodingWorkers.FinishesOnce` | src/decode_proc/mod.rs:86-92 | and finishes at one step, so a task has one result |
| `DecodingWorkers.ResultIsFixed` | src/server_consumer/client_proc.rs:63-88 | in every good run, one in which no two workers wait for one page and replies are memory, the result a worker sends is the one of decoding against memory |
| `DecodingWorkers.WorkerSendsWhatWasDecoded` | src/server_consumer/client_proc.rs:63-88 | the message sent is the sparse form of every instruction the decoder gave after its first synchronisation |
| `DecodingWorkers.MoveRefines` | src/server_consumer/client_proc.rs:52-92 | each move of a client whose workers decode step by step is a step of the protocol, or none |
| `DecodingWorkers.DecodingRefinesProtocol` | src/server_consumer/client_proc.rs:94-176 | so every good run is a run of the protocol in which results are fixed |
| `DecodingWorkers.DecodingConfluence` | src/server_consumer/client_proc.rs:135-141 | and any two drained good runs over the same tasks give the same map |
| `CountMaps.LocIsInjective` | src/decode_proc/mod.rs:57-58 | page and offset recover the address |
| `CountMaps.MeaningAt` | src/post_proc/mod.rs:6-9 | the multiplicity of a location in a map's meaning is its counter |
| `CountMaps.AddIpsMeaning` | src/decode_proc/mod.rs:54-65 | counting a stream of addresses adds its histogram, and leaves no page empty or unaligned |
| `CountMaps.MergeMeaning` | src/server_consumer/client_pool.rs:97-105 | merging adds meanings, for pages on both sides or on one |
| `CountMaps.MergeTotal` | src/server_consumer/client_pool.rs:97-105 | merging adds grand totals |
| `CountMaps.MergeAssociates` | src/server_consumer/client_pool.rs:92-106 | merging is associative |
| `CountMaps.MergeCommutes` | src/server_consumer/client_pool.rs:92-106 | merging is commutative |
| `CountMaps.MergeAllPermutation` | src/bin/online_proc.rs:279-294 | merging the sources in any order gives the same map |
| `CountMaps.MergeAllPages` | src/bin/online_proc.rs:279-294 | a page is in the result exactly when it is in some source |
| `CountMaps.MergeAllTotal` | src/bin/online_proc.rs:279-294 | the grand total is the sum of the sources' totals |
| `CountMaps.MergeAllMeaning` | src/bin/online_proc.rs:279-294 | the result means the sum of the sources' meanings |
| `CountMaps.CanonicalUnique` | src/bin/online_proc.rs:279-294 | two maps without empty pages that mean the same are the same map |
| `SparseMaps.ToSparse` | src/server_consumer/client_proc.rs:74-82 | the conversion loop, in any iteration order, is the sparse form |
| `SparseMaps.DensifyCount` | src/server_consumer/client_agent.rs:148-152 | a response's entries are its counters, and every counter without entry is zero |
| `SparseMaps.SparseOfLosesNothing` | src/server_consumer/client_proc.rs:75-80 | exactly the counters above zero are sent, their indices are in range, and the receiver gets the map back |
| `SparseMaps.MergeSparse` | src/server_consumer/client_agent.rs:142-154 | the receive handler's loop, in any iteration order, is the pointwise sum |
| `SparseMaps.MergeDense` | src/server_consumer/client_pool.rs:97-105 | so is the dense merge loop |
| `SparseMaps.CollectAll` | src/bin/online_proc.rs:272-300 | the loop over all cores is the merge of all their maps |
| `SparseMaps.SparseMergeIsHomomorphic` | src/server_consumer/client_agent.rs:142-154 | dropping zeros, sending and merging adds the original map, its meaning and its total |
| `ClientProtocol.ReceiverIsFirst` | src/server_consumer/client_proc.rs:161-162 | a reply goes to a worker that holds the registered channel's receiver, if one does |
| `TaskConservation.TaskStep` | src/server_consumer/client_proc.rs:143-157 | every step of every loop keeps each task in exactly one place |
| `TaskConservation.CountStep` | src/server_consumer/client_agent.rs:139-155 | every step keeps fetched, resident and in-flight counts equal to those of the finished tasks |
| `TaskConservation.Conservation` | src/server_consumer/client_agent.rs:166-182 | in every reachable state each published task is in exactly one place, all counts plus those of unfinished tasks are those of the published tasks, and neither receive loop can meet a message it does not know |
| `TaskConservation.DrainedTotal` | src/server_consumer/client_agent.rs:191-196 | a drained run has reported exactly the histogram of its tasks |
| `TaskConservation.Confluence` | src/server_consumer/client_proc.rs:135-141 | with results that are fixed by the task, any two drained runs over the same tasks give the same map, for any numbers of workers, interleavings and fetch times |
| `ClientOrder.TasksAreTakenInOrder` | src/server_consumer/client_agent.rs:166-182 | in every run a worker takes the oldest published task not taken yet |
| `ClientOrder.ActiveIffRegistered` | src/server_consumer/client_agent.rs:117-124 | in every run a client is active exactly when no registration of it is left to handle |
| `ClientOrder.RepliesAreWholeBuffers` | src/server_consumer/client_agent.rs:126-132 | every reply on the wire has 8192 bytes, also when the server's read failed |
| `MemRouting.DeliveryIsForItsAddress` | src/server_consumer/client_proc.rs:116-127 | in every run a waiter for address a gets a reply the server sent for a, or is released empty because a later request for a replaced its entry |
| `MemRouting.ReplacedWaiterIsFrozen` | src/server_consumer/client_proc.rs:119 | once replaced, a waiter can be released at any time and nothing changes what it is released with |
| `MemExactlyOnce.ReplyFindsItsWaiter` | src/server_consumer/client_proc.rs:158-165 | when no two waiters share an address, an arriving reply finds its entry and an empty channel that is still received on |
| `MemExactlyOnce.StepExact` | src/server_consumer/client_proc.rs:115-133 | every step keeps one request or reply in flight for each waiter, stale entries included |
| `MemExactlyOnce.ExactlyOneReply` | src/server_consumer/client_proc.rs:158-166 | in every such run each waiter has exactly one request or reply in flight, the loop neither ends nor blocks, and nobody is released empty |
| `MemExactlyOnce.ForwardingApproaches` | src/server_consumer/client_agent.rs:125-138 | each step of a loop lowers the total distance that is left to travel |
| `MemExactlyOnce.SomethingMoves` | src/server_consumer/client_proc.rs:39 | while a worker waits, some loop can move |
| `MemExactlyOnce.EveryRequestIsAnswered` | src/server_consumer/client_proc.rs:32-43 | from every such state the loops alone can bring every waiter its reply |
| `MemExactlyOnce.EveryScheduleAnswers` | src/server_consumer/client_proc.rs:115-171 | and in whatever order they move: they make at most that many steps, and when none can move any more nobody waits |
| `MemSharing.SharedAddressBreaks` | src/server_consumer/client_proc.rs:119 | with an address two workers may ask for, a run ends the receive loop |
| `MemSharing.SharedAddressBlocks` | src/server_consumer/client_proc.rs:160-164 | and another blocks it, until the worker that holds the first reply wakes |
| `MemSharing.SafeIffDisjoint` | src/server_consumer/client_proc.rs:158-166 | the loop survives every run if and only if no address is shared |
| `ClientAgents.ClientAgent.OnRegReq` | src/server_consumer/client_agent.rs:117-124 | registration activates the client |
| `ClientAgents.ClientAgent.OnDataRsp` | src/server_consumer/client_agent.rs:139-155 | a response is added to the resident map in place |
| `ClientAgents.ClientAgent.FetchResult` | src/server_consumer/client_agent.rs:191-196 | hands out the resident map and leaves it empty |
| `ClientAgents.ClientAgent.PublishTask` | src/server_consumer/client_agent.rs:205-207 | appends to the queue |
| `ClientAgents.ClientAgent.TakeTask` | src/server_consumer/client_agent.rs:166-169 | the send loop takes the oldest task |
| `ClientAgents.Perform` | src/server_consumer/client_agent.rs:113-207 | each server step of the protocol is one of the object's methods, so every theorem about runs is about this object |
| `ClientAgents.SelectClient` | src/server_consumer/client_pool.rs:72-81 | the loop finds the first client that is active with fewer than 1024 tasks queued, or else the first client |
| `ClientAgents.SelectedIsFirstFree` | src/server_consumer/client_pool.rs:72-81 | which is the first that is not full, or the first of all when every one is full |
| `PoolConservation.FreeIffItTakesTasks` | src/server_consumer/client_agent.rs:198-203 | not full means active and able to take a task at once |
| `PoolConservation.AgentIsFullIff` | src/server_consumer/client_agent.rs:198-203 | the object and the step system agree on it |
| `PoolConservation.FreeIsRegistered` | src/server_consumer/client_agent.rs:117-124 | in every reachable pool, not full means registered and able to take a task |
| `PoolConservation.FoundClientIsReady` | src/server_consumer/client_pool.rs:74-84 | a client that the selection finds is registered, and handing the task over is enabled at once |
| `PoolConservation.HandOverStaysEnabled` | src/server_consumer/client_pool.rs:82-85 | and stays enabled in every run until it is done |
| `PoolConservation.AtMost33Clients` | src/server_consumer/client_pool.rs:51-60 | no run connects more than 33 clients |
| `ClientAgents.GetResult` | src/server_consumer/client_pool.rs:88-119 | with responses landing on any client at any moment: returns exactly what the clients that were empty at their check hold at their fetch; every client keeps the rest |
| `ClientAgents.GetResultConserves` | src/server_consumer/client_pool.rs:92-106 | what is returned and what is kept is what was held and what landed, for every timing |
| `ClientAgents.AllHandedOutIff` | src/server_consumer/client_agent.rs:186-189 | everything held when it is fetched is handed out if and only if no client holds anything at its check |
| `PoolConservation.EveryClientRunsTheProtocol` | src/server_consumer/client_pool.rs:51-60 | each client of any reachable pool is in a reachable state of the client protocol |
| `PoolConservation.LostExactlyWhileThereIsNoClient` | src/server_consumer/client_pool.rs:73-85 | the tasks lost are the first ones: all of them until a client connects and none after |
| `PoolConservation.PoolConserves` | src/server_consumer/client_pool.rs:68-86 | each submitted task is lost, in decode's hands, or in one place of one client; and counts balance across the pool |
| `PoolConservation.PoolDrainedTotal` | src/server_consumer/client_pool.rs:88-119 | a drained pool has counted exactly the tasks that were not lost |
| `PoolConservation.PoolConfluence` | src/server_consumer/client_pool.rs:68-119 | any two drained pools with the same kept tasks give the same map |
| `PoolConservation.QuietSelection` | src/server_consumer/client_pool.rs:73-81 | when nothing else moves, the step-by-step selection is the loop's |
| `LocalPipeline.HandedChunksAreFetches` | src/bin/online_proc.rs:99-113 | the chunks the poll loop hands over of a ring are fetches of the pipeline, and the splitter receives exactly the non-empty ones |
| `LocalPipeline.PolledIsReachable` | src/pt_ctrl/mod.rs:334-348 | what the poll loop has handed over of all rings is a reachable state of the pipeline |
| `LocalPipeline.StoppedIsReadToLastPsb` | src/pt_ctrl/mod.rs:286-299 | a reader that has stopped, and not at ten sentinels, has fetched the last PSB |
| `LocalPipeline.TasksOfPrefix` | src/bin/online_proc.rs:70-83 | fetching through the last PSB yields all tasks of the stream |
| `LocalPipeline.TasksStep` | src/bin/online_proc.rs:99-113 | every step keeps each task found in exactly one place |
| `LocalPipeline.QuiescentTotal` | src/bin/online_proc.rs:272-300 | at quiescence the merged map is the histogram of all tasks of all streams |
| `LocalPipeline.EndToEnd` | src/bin/online_proc.rs:38-87 | so it depends on the streams only, not on polling, fetch sizes, chunks, queue order or workers |
| `LocalPipeline.EndToEndFromRings` | src/pt_ctrl/mod.rs:334-348 | the same from what the ring reader guarantees, instead of a hypothesis about the last PSB |
| `LocalPipeline.LocalAndDistributedAgree` | src/bin/server.rs:77-96 | a drained pool given the same tasks counts the same map |
| `ModuleLookup.Process.QueryModuleInfoByAddr` | src/native_helper/mod.rs:76-94 | answer and new cache, for any cache |
| `ModuleLookup.LookupMeans` | src/native_helper/mod.rs:76-94 | a lookup fails exactly when nothing covers the address, and keeps the cache; else it answers from the module cached before if that covers the address, and from the first of the list otherwise |
| `ModuleLookup.TransparentIffNoClash` | src/native_helper/mod.rs:76-94 | the cached lookup is the plain scan after every history if and only if no module that is first somewhere covers an address where a different one is first |
| `ModuleLookup.DisjointIsTransparent` | src/native_helper/mod.rs:76-94 | disjoint inclusive ranges are enough |
| `ModuleLookup.TransparentIffOverlapsAreHidden` | src/native_helper/mod.rs:76-94 | with unique names: if and only if every module that overlaps an earlier one is covered by earlier ones |
| `ModuleLookup.NeighboursClash` | src/native_helper/mod.rs:80 | at the address two neighbours share, the answer depends on the history |
| `ModuleReport.KeyIsInjective` | src/bin/online_proc.rs:263 | a line gives back name and offset, whatever the names contain |
| `ModuleReport.KeyReadsBack` | src/bin/online_proc.rs:263 | a line is the name, " + ", and decimal digits without leading zero that read back as the offset |
| `ModuleReport.LinesReadBack` | src/bin/online_proc.rs:262-263 | a line read as text names a module that covers the address and its offset in it, or "dummy" and the address |
| `ModuleReport.ReportPage` | src/bin/online_proc.rs:259-265 | one page's lines, each described by a module that covers its address |
| `ModuleReport.WriteReport` | src/bin/online_proc.rs:243-266 | every executed address, and no other, gets a line; each line holds the count of one of its addresses |
| `ModuleReport.ReportCompleteIff` | src/bin/online_proc.rs:258-269 | for disjoint ranges, every map's report has one line per executed address and the grand total as its sum if and only if names are unique and no module named "dummy" has an offset that is an uncovered address |
| `ModuleReport.ReportIsComplete` | src/bin/online_proc.rs:258-269 | such names are enough for that even where ranges overlap |
| `ModuleReport.ReportHasLine` | src/bin/online_proc.rs:258-265 | each executed address has a line with its count that names a module covering it; with disjoint ranges it is the plain scan's |
| `ModuleReport.SameNamesLoseACount` | src/bin/online_proc.rs:263 | two modules of one name: a map of two executions whose report has one line, and one count |
| `ModuleReport.DummyLosesACount` | src/bin/online_proc.rs:262-263 | the same for a module named "dummy" with an offset that is an uncovered address |

## Assumed

- The producer writes a ring in order, its writes become visible in order, and it never overruns unread bytes.
- Both wires are lossless and FIFO: `src/server_consumer/msg_adapter.rs` and `src/server_consumer/communator.rs` are
  thin wrappers over libraries that are not part of this model.
- Inside `TaskConservation`, `PoolConservation` and `LocalPipeline` decoding is a fixed function of the task.
  `CachedDecode.TaskCountsAreFixed` shows when it is, on both paths: every call a cache really makes must be
  answered with memory. On the remote path that fails for a waiter released empty and for a read the server could
  not do; `DecodingWorkers.DecodingRefinesProtocol` proves it of the runs in which neither happens.
- The polling loop's processor refuses on every ring in some sweep, and there is at least one ring.
- Addresses fit 64 bits and `addr + len`, `base + size` do not wrap; counters are unbounded.

## Left out

- libipt: a decoder is the sequence of its answers, and for splitting a scan for the PSB pattern; the PSB+ header
  libipt also parses and the event-fetching loops are not modelled.
- Windows and driver calls, DLL loading, sockets, argument parsing and printing.
- Disconnects and shutdown: the state change is created but never awaited, so it never happens; a message the
  client does not implement ends its loop here, where the program panics.
- `Init` and `UnReg` messages: nothing sends them.
- A worker that wakes drops its receiver in the same step.
- The raw-pointer buffer of `read_mem` is the first `len` bytes of the reply.
- `drv_h`, `pid` and the numbers inside `RegReq` and `RegRsp`: they are passed on and never decide anything.
- The cast of an index to u16: indices are below 4096.
- `query_module_info_by_module_name`, `get_module_info`, file writing and rotation, `set_file_size` and
  `create_post_thread`: single lookups, I/O, or repeats of the histogram.
- DecodeSynced: says nothing of a decoder whose resync does not advance; `StandingResyncNeverEnds` shows that the
  loop then need not end.
- PlayIsDirect: speaks of the first n steps of a decoder, for every n.
- ReportCompleteIff: is stated for disjoint ranges; where they overlap, which line an address gets depends on the
  order in which the map is visited.
- SafeIffDisjoint: the run that ends the loop serves its requests with zeros, one of the replies the server can give.
