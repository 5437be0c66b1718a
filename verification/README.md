# Verified models of the CTP7 software stack

Dafny models of the parts of this repository whose correctness is hardest to see from the code, with
proofs of what they are for. `dafny verify dfyconfig.toml` checks the whole project.

| files | what they model |
|---|---|
| `Midl.dfy`, `MidlSort.dfy`, `MidlMerge.dfy`, `MidlSortMerge.dfy`, `MidlInsert.dfy`, `MidlGrow.dfy` | LMDB's ID lists: the quicksort with its explicit stack, the backward merge with its sentinel, binary search, sorted insertion, and growing lists, all in place on one array |
| `LoggerNames.dfy`, `Hierarchy.dfy` | the log4cplus logger tree, in which loggers appear in any order and provision nodes remember whom to relink; levels and appenders along the parent walk |
| `QueueProtocol.dfy`, `QueueTheorems.dfy`, `QueueHistory.dfy`, `QueueCode.dfy` | the bounded event queue of the asynchronous appender: atomic steps of any number of callers and one consumer over mutex, semaphore, event and flags; safety and progress over all interleavings, and the fate of every event offered; the critical sections on the real flag word |
| `IpbusHeader.dfy`, `Ipbus.dfy`, `IpbusRefinement.dfy`, `IpbusModify.dfy` | IPbus 2.0 control packets: headers, transaction handlers over request and response deques, and the refinement of parse, fold, print |
| `SocketBuffers.dfy`, `LogEvents.dfy`, `LoggingServer.dfy`, `TruncatedEvents.dfy`, `ArrivingEvents.dfy` | log events on the wire, from the appender through a chopped-up stream to the logging server; what becomes of those too long for a message, and exactly which arrive |
| `HexText.dfy`, `DumpLoad.dfy` | `mdb_dump` and `mdb_load` in bytevalue format, with line buffers that double and hex digits decoded in place |
| `RollingFiles.dfy` | rolling log files over whole runs |
| `Ranges.dfy` | the move-to-front list of address ranges of the memory service |
| `Substitution.dfy` | `${name}` substitution in configuration values |
| `Registers.dfy` | named register fields, read and written under a mask |

Code that changes state in place is modelled by methods on arrays and objects; each is proved against a
function or predicate over the old and new values, and the theorems are about those. Files are a map from
number to contents, standard input and sockets a sequence of bytes with an arbitrary chopping, the bus an
arbitrary function that may fail at any time, properties and environment arbitrary functions. Machine
integers are modelled where their width matters: 32-bit words are bit vectors, lengths and levels on the
wire are reduced modulo 2^32, ids are bounded by 2^64.

## What the proofs found

- **Parent links.** `updateChildren` recognises a parent that is already lower by its name alone
  (`hierarchy.cxx:365`), so a new logger named `r`, `ro` or `roo` is taken for an ancestor of the root
  logger, whose name is "root". A logger `r.x` created before `r` keeps the root as its parent. The law in
  `LoggerNames.dfy` states the parent for every history, `RightThroughoutIffHarmless` exactly when all
  links are right, `OrderCanMatter` the counterexample.
- **Non-incrementing writes.** After a bus error `process_niwrite_txn` leaves the data words that it has
  not written in the request (`Client.cpp:291-296`), where they are taken for headers. `FramingInStepIff`
  says exactly when framing stays in step on one run, `InStepOnEveryBusIff` which packets stay in step
  whatever the bus does; `LostErrorReport` is a packet that gets no reply.
- **Configuration writes.** `process_cfgwrite_txn` pops its data off the response instead of the request
  (`Client.cpp:399-400`). It does what it should exactly if there are no data words (`CfgWriteRightIff`);
  `CfgWriteEatsReply` and `CfgWritePopsNothing` are packets for which it does not.
- **Failed writes** of the incrementing kind are always reported with the code of a read error
  (`Client.cpp:242`), see `FailedWriteReportsRead`.
- **Byte-swapped packets.** The mask for swapped headers looks at the packet type instead of the byte-order
  qualifier (`Client.cpp:114`), see `SwappedHeaderRecognisedIff`.
- **Truncated events.** Of an event that is too long the appender leaves out the fields that do not fit
  and sends the others. The server gets the event right exactly if nothing but empty texts and zeros is
  missing (`ArrivesIff`); otherwise it gets another event, with fields taken for others, or none. None it
  gets when a string length is not 0 and the message ends right behind it, where `readString` computes a
  negative count modulo 2^64 (`socketbuffer.cxx:130-188`, `ReadStringThrowsIff`); the model reports that as
  `None`. The length may be an integer behind a missing text, such as the line number behind the file name;
  if it comes last and is not 0, the connection is lost together with all later events (`UndecodableIff`,
  `UndecodableAtFileIff`, `ConnectionLost`).
- **Overlapping ranges.** Moving the range found to the front changes later answers exactly for the lists
  that `NeverNoticedIff` describes.
- **Searching.** The comment in `midl.c:38` promises the first position greater than the id; the code for
  descending lists returns the first one below it, and the one for ascending lists the first one not
  below it. The model follows the code.
- **Refused events.** An event whose turn under the mutex comes after an exit is dropped without an error
  bit (`queue.cxx:63-67`), exactly then (`TurnDecides`, `SplitAtExit`). "Accepted" in the queue theorems
  means put into the queue; `WhereEventsAre` and `ExactlyOnce` account for every event offered.
- **Queues of limit 0.** The configuration accepts `QueueLimit=0` (`asyncappender.cxx:133`); then a call
  that offers an event never returns, not even after an exit, against the comment at `queue.h:64-68`
  (`LimitZeroBlocks`, `LimitZeroDeadlocks`). For all other limits there is no deadlock (`NoDeadlockIff`).

## Model

| member | source | states |
|---|---|---|
| MidlSort.Sort | xcompile/lmdb-LMDB_0.9.19/libraries/liblmdb/midl.c:219-278 | For every list short enough that `l + ir` is an `int`: the sort ends, no array or stack access is out of bounds, `ids[1..n]` is afterwards descending and a permutation of what it was, and everything else in the array, the length word included, is unchanged. |
| MidlSort.SplitShrinks | xcompile/lmdb-LMDB_0.9.19/libraries/liblmdb/midl.c:266-275 | Pushing the larger part and going on with the smaller one keeps "the segment at stack depth k has at most n / 2^k elements". |
| MidlSort.DepthBound | xcompile/lmdb-LMDB_0.9.19/libraries/liblmdb/midl.c:222-223 | That bound, for lists of up to 2^31 - 1 ids, means a segment long enough to be partitioned always finds two free slots among the 64. |
| MidlSort.PermutingKeepsOutside | xcompile/lmdb-LMDB_0.9.19/libraries/liblmdb/midl.c:230-277 | Permuting only the current segment cannot put any pair of positions that is not inside one pending segment out of order. |
| MidlSort.SplitKeepsOutside | xcompile/lmdb-LMDB_0.9.19/libraries/liblmdb/midl.c:258-276 | After a partition, every pair out of order lies in one of the two parts pushed or kept, and all pending segments stay disjoint and in range. |
| MidlSort.InsertDown | xcompile/lmdb-LMDB_0.9.19/libraries/liblmdb/midl.c:232-239 | One insertion: although the scan only stops at index 1, it never leaves the segment, because nothing left of it is smaller; the prefix grows by one ordered element and is a permutation. |
| MidlSort.ScanUp | xcompile/lmdb-LMDB_0.9.19/libraries/liblmdb/midl.c:259 | The unguarded upward scan stops inside the segment, at the first id not above the pivot. |
| MidlSort.ScanDown | xcompile/lmdb-LMDB_0.9.19/libraries/liblmdb/midl.c:260 | The unguarded downward scan stops inside the segment, at the first id not below the pivot. |
| MidlSort.ExchangeAroundPivot | xcompile/lmdb-LMDB_0.9.19/libraries/liblmdb/midl.c:255-263 | The median-of-three arrangement, and later the exchanged elements, stop both scans; the loop ends with three ranges above, equal to and below the pivot. |
| MidlSort.Partition | xcompile/lmdb-LMDB_0.9.19/libraries/liblmdb/midl.c:244-265 | The segment is permuted into a left part not below, a middle equal to and a right part not above `ids[j]`, both parts strictly inside the segment. |
| MidlMerge.Search | xcompile/lmdb-LMDB_0.9.19/libraries/liblmdb/midl.c:33-66 | On a descending list: the position of the key if present, otherwise the first position whose id is below it; everything before is above the key, everything from there on is not. |
| MidlMerge.Xmerge | xcompile/lmdb-LMDB_0.9.19/libraries/liblmdb/midl.c:200-212 | Merging two descending lists in place leaves a descending list with the multiset union, the right length, and the rest of the array untouched. |
| MidlMerge.PlaceSmaller | xcompile/lmdb-LMDB_0.9.19/libraries/liblmdb/midl.c:207-208 | The inner loop never overwrites an unread id (k = i + j throughout) and stops on the sentinel in slot 0 at the latest. |
| MidlMerge.Place | xcompile/lmdb-LMDB_0.9.19/libraries/liblmdb/midl.c:205-210 | Placing the smaller of the two last unread ids keeps "finished end descending, nothing unread smaller, no id lost or doubled". |
| IdLists.DescendingUnique | xcompile/lmdb-LMDB_0.9.19/libraries/liblmdb/midl.c:219-278 | A descending list is determined by its multiset of ids, so the specifications of sort and merge fix their results. |
| MidlSortMerge.SortThenMerge | xcompile/lmdb-LMDB_0.9.19/libraries/liblmdb/midl.c:200-278 | Running the sort on two lists and merging one into the other leaves exactly the list that running the sort on both together leaves: the descending list of all their ids. |
| MidlInsert.Search2 | xcompile/lmdb-LMDB_0.9.19/libraries/liblmdb/midl.c:280-313 | On an ascending list: the first position whose id is not below the key. |
| MidlInsert.Insert2 | xcompile/lmdb-LMDB_0.9.19/libraries/liblmdb/midl.c:315-344 | Refines insertion into a sorted set keyed by id: -1 and no change on a duplicate, -2 and no change when full, otherwise the pair in its place and the order kept. |
| MidlInsert.PlacedProperties | xcompile/lmdb-LMDB_0.9.19/libraries/liblmdb/midl.c:335-341 | Insertion into an ascending list adds exactly the new pair and stays strictly ascending. |
| MidlInsert.AscendingUnique | xcompile/lmdb-LMDB_0.9.19/libraries/liblmdb/midl.c:315-344 | A strictly ascending list is determined by its set of pairs. |
| MidlInsert.RunOfInsertions | xcompile/lmdb-LMDB_0.9.19/libraries/liblmdb/midl.c:315-344 | After any run of insertions the list is strictly ascending and holds exactly the first pair offered for every id, up to the point where the list is full, if ever. |
| MidlInsert.Append2 | xcompile/lmdb-LMDB_0.9.19/libraries/liblmdb/midl.c:346-355 | Appends the pair behind the list, or answers -2 and changes nothing when full. |
| MidlGrow.GrowableList.Need | xcompile/lmdb-LMDB_0.9.19/libraries/liblmdb/midl.c:142-154 | Afterwards there is room for `num` more ids, contents kept, capacity word equal to the allocation, and the new capacity by value. |
| MidlGrow.GrowableList.Append | xcompile/lmdb-LMDB_0.9.19/libraries/liblmdb/midl.c:156-168 | One id behind the contents, growing by 2^17 - 1 when full; the capacity invariant is kept. |
| MidlGrow.GrowableList.AppendList | xcompile/lmdb-LMDB_0.9.19/libraries/liblmdb/midl.c:170-182 | The contents of the other list behind this one, growing when needed; the capacity invariant is kept. |
| MidlGrow.GrowableList.AppendRange | xcompile/lmdb-LMDB_0.9.19/libraries/liblmdb/midl.c:184-198 | The n ids from `id` on, modulo 2^64 and the last one first, behind the contents; no write outside the allocation. |
| MidlGrow.RangeDescendingIff | xcompile/lmdb-LMDB_0.9.19/libraries/liblmdb/midl.c:184-198 | The appended range is descending if and only if it does not wrap around. |
| Hierarchies.Hierarchy.GetInstance | xcompile/log4cplus-1.1.2/src/hierarchy.cxx:257-295 | Keeps the hierarchy invariant, which contains the law for the parent of every logger; returns the registered logger of the name, the root for the empty name, and changes nothing when the name exists. A new logger has no level and no appenders, is additive, and so inherits level and appenders from its parent. |
| Hierarchies.Hierarchy.GetInstances | xcompile/log4cplus-1.1.2/src/hierarchy.cxx:257-295 | After any number of `getInstance` calls in any order the hierarchy is valid and its history is the requested names, each at its first occurrence; of the loggers that were there only the parent links may have changed, and the others are new ones without level or appenders. |
| Hierarchies.Hierarchy.BlankInherits | xcompile/log4cplus-1.1.2/src/loggerimpl.cxx:55-64 | A logger without a level and appenders of its own that is additive has the chained level of its parent, and its events go to the same appenders. |
| Hierarchies.Hierarchy.UpdateParents | xcompile/log4cplus-1.1.2/src/hierarchy.cxx:310-354 | The new logger gets the nearest existing dotted ancestor or the root, and is added to the provision node of exactly the missing ancestors below that parent. |
| Hierarchies.Hierarchy.UpdateChildren | xcompile/log4cplus-1.1.2/src/hierarchy.cxx:357-370 | Exactly the children whose parent does not start with the new name move below the new logger. |
| Hierarchies.Hierarchy.TreeAfter | xcompile/log4cplus-1.1.2/src/hierarchy.cxx:279-291 | The pointer updates together leave the tree that one more creation step prescribes. |
| LoggerNames.CreateStep | xcompile/log4cplus-1.1.2/src/hierarchy.cxx:257-370 | Creating a logger keeps the provision-node invariant: every missing ancestor with nothing existing between lists the logger, provision keys and logger keys are disjoint, and every parent obeys the law. |
| LoggerNames.RelinkedLaw | xcompile/log4cplus-1.1.2/src/hierarchy.cxx:357-370 | Relinking the loggers of a provision node gives every one of them the parent the law demands after the creation. |
| LoggerNames.LawUnique | xcompile/log4cplus-1.1.2/src/hierarchy.cxx:257-370 | The law determines one parent for every name and history. |
| LoggerNames.LinkRightIff | xcompile/log4cplus-1.1.2/src/hierarchy.cxx:361-368 | A parent link leads to the nearest existing ancestor if and only if that ancestor is not a proper prefix of "root" created after the logger. |
| LoggerNames.RightThroughoutIffHarmless | xcompile/log4cplus-1.1.2/src/hierarchy.cxx:257-370 | All parent links are right after every call of a history if and only if the history never creates a proper prefix of "root" after one of its descendants. |
| LoggerNames.HarmlessIff | xcompile/log4cplus-1.1.2/src/hierarchy.cxx:40-49 | That is, none of the names r, ro and roo after one of its descendants. |
| LoggerNames.TreeDependsOnNamesOnly | xcompile/log4cplus-1.1.2/src/hierarchy.cxx:257-370 | Two such histories of the same names, in whatever orders, give the same tree, the one of nearest ancestors. |
| LoggerNames.OrderCanMatter | xcompile/log4cplus-1.1.2/src/hierarchy.cxx:361-368 | The condition is needed: `r` after `r.x` leaves `r.x` below the root, `r` before `r.x` does not. |
| Hierarchies.Hierarchy.LinksObeyLaw | xcompile/log4cplus-1.1.2/src/hierarchy.cxx:257-370 | In a valid hierarchy the actual parent pointer of every logger is the one the law demands. |
| Hierarchies.Hierarchy.ParentIsHigher | xcompile/log4cplus-1.1.2/src/loggerimpl.cxx:123-136 | Parent walks terminate: each step leads to a shorter name or to the root. |
| Hierarchies.Hierarchy.ChainIsAncestors | xcompile/log4cplus-1.1.2/src/hierarchy.cxx:257-370 | With all links right, walking up from a logger visits exactly its existing dotted ancestors. |
| Hierarchies.Hierarchy.GetChainedLogLevel | xcompile/log4cplus-1.1.2/src/loggerimpl.cxx:123-136 | Returns the level of the nearest logger on the parent walk that has one; the error branch is never reached. |
| Hierarchies.Hierarchy.IsEnabledFor | xcompile/log4cplus-1.1.2/src/loggerimpl.cxx:93-100 | Enabled exactly if the level is above the hierarchy threshold and at least the chained level. |
| Hierarchies.Hierarchy.SetLogLevel | xcompile/log4cplus-1.1.2/src/rootlogger.cxx:45-62 | The root level is never unset, which the invariant needs. |
| Hierarchies.Hierarchy.AppendUpwards | xcompile/log4cplus-1.1.2/src/loggerimpl.cxx:55-66 | The event goes to the appenders of exactly the chain up to and including the first non-additive logger, in that order. |
| Hierarchies.Hierarchy.CallAppenders | xcompile/log4cplus-1.1.2/src/loggerimpl.cxx:55-76 | And the missing-appender warning is given once, when nothing was written. |
| QueueProtocol.StepKeepsInv | xcompile/log4cplus-1.1.2/src/queue.cxx:50-182 | Every atomic step of every thread keeps the invariant: mutual exclusion, token conservation, event order, the consumer facts and the wake-up guarantee. |
| QueueProtocol.RunKeepsInv | xcompile/log4cplus-1.1.2/src/queue.cxx:50-182 | Hence it holds over every interleaving of any number of threads and one consumer. |
| QueueTheorems.DeliveredInOrder | xcompile/log4cplus-1.1.2/src/asyncappender.cxx:63-88 | In every reachable state the delivered events are a prefix of the accepted ones; at the end they are all of them after a draining exit, and all but the discarded ones otherwise. |
| QueueTheorems.AssertionsHold | xcompile/log4cplus-1.1.2/src/queue.cxx:142-156 | QUEUE is set exactly when the queue is not empty, so neither assertion fails, and the queue never exceeds its limit. |
| QueueTheorems.NoLostWakeUp | xcompile/log4cplus-1.1.2/src/queue.cxx:70-77 | A consumer waiting while there is something to do is already signalled or some thread has still to signal. |
| QueueTheorems.TokensConserved | xcompile/log4cplus-1.1.2/src/queue.cxx:58-78 | Free, held, returned and queued slots add up to the limit, less what a discard withholds; at least one is always free, held or coming back. |
| QueueTheorems.StuckStates | xcompile/log4cplus-1.1.2/src/queue.cxx:50-182 | If nothing can move, the consumer sleeps over an empty queue or has stopped, and the only calls that have not returned wait for a token of a queue of limit 0. |
| QueueTheorems.NoDeadlock | xcompile/log4cplus-1.1.2/src/queue.cxx:50-182 | In a reachable state in which nothing can move, every call has returned if and only if the limit is positive or no call is under way. |
| QueueTheorems.NoDeadlockIff | xcompile/log4cplus-1.1.2/src/queue.cxx:50-182 | Every reachable state in which nothing can move has all calls returned if and only if the limit is positive (or there is no caller). |
| QueueTheorems.LimitZeroDeadlocks | xcompile/log4cplus-1.1.2/src/asyncappender.cxx:132-135 | The limit 0, which the configuration accepts: one offered event, and nothing can move any more. |
| QueueTheorems.LimitZeroBlocks | xcompile/log4cplus-1.1.2/src/queue.cxx:58 | On a queue of limit 0 a call that offers an event stays where it is over every run, an exit included. |
| QueueTheorems.WorkRunsOut | xcompile/log4cplus-1.1.2/src/queue.cxx:126-182 | Without new calls every schedule takes at most a computable number of steps. |
| QueueTheorems.EveryCallReturns | xcompile/log4cplus-1.1.2/include/log4cplus/helpers/queue.h:61-99 | So every maximal schedule ends, within that bound, with every call returned (on a queue of limit 0 if and only if none offers an event) and, unless there was an exit without draining, with everything accepted delivered. |
| QueueHistory.WhereEventsAre | xcompile/log4cplus-1.1.2/src/queue.cxx:50-182 | Over every run, every offered event is, as often as it was offered, delivered, taken out, queued, dropped by an exit without draining, still in its call, or refused. |
| QueueHistory.SplitAtExit | xcompile/log4cplus-1.1.2/src/queue.cxx:61-78 | Every run splits at its exit, if it has one, so that everything accepted had its turn under the mutex before and everything refused afterwards. |
| QueueHistory.TurnDecides | xcompile/log4cplus-1.1.2/src/queue.cxx:61-78 | At its turn under the mutex, and only there, an event is accepted if no exit is set and refused otherwise. |
| QueueHistory.ExitIsFinal | xcompile/log4cplus-1.1.2/src/queue.cxx:98-113 | After an exit nothing is accepted any more, and no later call changes whether it drains. |
| QueueHistory.ExitMode | xcompile/log4cplus-1.1.2/src/queue.cxx:91-113 | An exit that drains, or does not, was asked for by a call of the run that said so; the first turn of such a call decides. |
| QueueHistory.WithoutDraining | xcompile/log4cplus-1.1.2/src/queue.cxx:154-163 | From an exit without draining on, no event leaves the queue for delivery: only what had been taken out before is still delivered. |
| QueueHistory.ExitOutcome | xcompile/log4cplus-1.1.2/src/asyncappender.cxx:63-88 | How every run ends after an exit: with everything accepted delivered if it drains; otherwise with exactly what had been taken out of the queue at the exit delivered, and the queue of that moment dropped. |
| QueueHistory.ExactlyOnce | xcompile/log4cplus-1.1.2/src/asyncappender.cxx:63-88 | When nothing can move any more, offered events are exactly the delivered, dropped and refused ones, each as often; without an exit exactly the delivered ones, after a draining exit exactly the delivered and refused ones (for positive limits). |
| QueueCode.Queue.Put | xcompile/log4cplus-1.1.2/src/queue.cxx:61-87 | The critical section on the real flag word is exactly the protocol step of a caller; no error bit is reported. |
| QueueCode.Queue.Exit | xcompile/log4cplus-1.1.2/src/queue.cxx:98-122 | Likewise for `signal_exit`; the first call alone decides between draining and not. |
| QueueCode.Queue.Get | xcompile/log4cplus-1.1.2/src/queue.cxx:135-173 | Likewise for `get_events`: swap with the reused buffer, discard, exit or wait, whose old contents never come back. |
| QueueCode.NextTurnOf | xcompile/log4cplus-1.1.2/src/asyncappender.cxx:80-86 | The flag test of the consumer loop decides as the protocol does. |
| QueueCode.FlagBits | xcompile/log4cplus-1.1.2/include/log4cplus/helpers/queue.h:101-126 | The bits of the flag word, by value. |
| IpbusHeader.SerializeParse | xcompile/ipbus/Client.h:24-38 | Printing a parsed header gives the word back, for all 2^32 words. |
| IpbusHeader.ParseSerialize | xcompile/ipbus/Client.h:24-38 | Parsing a printed header gives the header back if and only if its fields fit. |
| IpbusHeader.FieldPositions | xcompile/ipbus/Client.h:31-38 | Where each header field is in the printed word, by shifts and masks. |
| IpbusHeader.ModifyAddressInverse | xcompile/ipbus/Client.cpp:411-417 | The bus address determines the low 30 bits of the request address and depends on nothing else. |
| IpbusHeader.ModifyAddressValue | xcompile/ipbus/Client.cpp:411-417 | The bus address is the base 0x64000000 plus the address with two zero bits behind it. |
| IpbusHeader.SwappedHeaderRecognisedIff | xcompile/ipbus/Client.cpp:111-119 | Of the byte-swapped valid packet headers the second mask accepts exactly those of type 15, so no swapped control packet is recognised. |
| Ipbus.Client.ReadTxn | xcompile/ipbus/Client.cpp:191-214 | Request, reply and bus as specified, on short requests and bus failures too. |
| Ipbus.Client.WriteTxn | xcompile/ipbus/Client.cpp:216-245 | The same; a failed write reports the read error code, as the code does. |
| Ipbus.Client.NiReadTxn | xcompile/ipbus/Client.cpp:247-275 | The same; a failure at any word gives a reply without data. |
| Ipbus.Client.NiWriteTxn | xcompile/ipbus/Client.cpp:277-301 | The same; a failure leaves the remaining data words in the request. |
| Ipbus.Client.RmwBitsTxn | xcompile/ipbus/Client.cpp:303-334 | The same for read, mask, or, write; the old value is returned. |
| Ipbus.Client.RmwSumTxn | xcompile/ipbus/Client.cpp:336-366 | The same for read, add modulo 2^32, write. |
| Ipbus.Client.CfgReadTxn | xcompile/ipbus/Client.cpp:368-385 | The same: zeros for every word. |
| Ipbus.Client.CfgWriteTxn | xcompile/ipbus/Client.cpp:387-404 | The data words are popped off the response; with too few of them the behaviour is undefined, which the model records. |
| Ipbus.Client.ProcessControlPacket | xcompile/ipbus/Client.cpp:155-189 | The deque loop computes the recursive specification on every request, malformed ones included; an invalid header drops the whole reply. |
| IpbusModify.RmwBitsPacket | xcompile/ipbus/Client.cpp:303-334 | From the words of a packet of one such request to the bus: in the word written the or-bits are set and the others are those of the word read that the and-mask lets through, which determines it; reply, info code and bus state on success and on either failure. |
| IpbusModify.RmwSumPacket | xcompile/ipbus/Client.cpp:336-366 | Likewise: the word written is the exact sum of 33 bits without its carry. |
| IpbusModify.ServeRmwBits | xcompile/ipbus/Client.cpp:155-189 | And so does the server, given such a packet. |
| IpbusModify.MaskedUnique | xcompile/ipbus/Client.cpp:324 | That description of the word written has one solution. |
| Ipbus.ReadRunAt | xcompile/ipbus/Client.cpp:259-274 | A non-incrementing read goes from bus state to bus state, one word at the same address each time, and returns the word of each read in order. |
| Ipbus.WriteRunAt | xcompile/ipbus/Client.cpp:289-297 | A non-incrementing write goes from bus state to bus state, one data word after the other to the same address, up to the first failure. |
| Ipbus.TakenAt | xcompile/ipbus/Client.cpp:207-208 | The words of a read, by position. |
| Ipbus.ZerosAt | xcompile/ipbus/Client.cpp:383-384 | A configuration read answers that many zeros. |
| IpbusRefinement.InfoCodes | xcompile/ipbus/Client.h:16-22 | The info codes of replies, by transaction type and value. |
| IpbusRefinement.HandlePrinted | xcompile/ipbus/Client.cpp:191-404 | Handling one printed transaction executes it, answers it, and leaves exactly its unread data words; a configuration write takes as many words off the response. |
| IpbusRefinement.ProcessRefines | xcompile/ipbus/Client.cpp:155-404 | Any packet of well-formed transactions, of every type, that leaves no data words unread is answered by the in-order replies of parse, fold and print, and the bus sees exactly their effects in order. |
| IpbusRefinement.InStepOnEveryBusIff | xcompile/ipbus/Client.cpp:277-301 | A condition on the packet alone: it leaves no data words unread on any bus if and only if its non-incrementing writes carry at most one data word and its configuration writes none. |
| IpbusRefinement.SafePacketsRefine | xcompile/ipbus/Client.cpp:155-404 | Such packets, in particular all without these two types, are parsed, executed and answered in order, with all headers taken where they are, under arbitrary bus failures. |
| IpbusRefinement.ReplyCarriesHeader | xcompile/ipbus/Client.cpp:161-186 | Every reply header carries id, type, version and word count of its request. |
| IpbusRefinement.FramingInStepIff | xcompile/ipbus/Client.cpp:155-404 | The loop takes its headers where the client put them, without a pop on an empty deque, if and only if no transaction of the run leaves data words unread. |
| IpbusRefinement.CfgWriteRightIff | xcompile/ipbus/Client.cpp:387-404 | A configuration write is handled as meant, its words read and its reply appended, if and only if it has no words. |
| IpbusRefinement.CfgWriteEatsReply | xcompile/ipbus/Client.cpp:399-400 | Concrete input: a configuration write of one word behind a read takes the header off the reply to the read, and its own data word is executed as a transaction. |
| IpbusRefinement.CfgWritePopsNothing | xcompile/ipbus/Client.cpp:399-400 | Concrete input: a configuration write of one word at the start of a packet pops an empty deque. |
| IpbusRefinement.FailedWriteReportsRead | xcompile/ipbus/Client.cpp:237-244 | Every write that the bus refuses is answered by the code of a read error, never by that of a write error. |
| IpbusRefinement.OutOfStepDropsReplies | xcompile/ipbus/Client.cpp:165-173 | Out of step, a data word that is no valid header costs the client all replies of the packet. |
| IpbusRefinement.LostErrorReport | xcompile/ipbus/Client.cpp:289-297 | Concrete input: two zero words written to a dead bus, and no reply at all. |
| SocketBuffers.IntRoundTrip | xcompile/log4cplus-1.1.2/src/socketbuffer.cxx:109-128 | An unsigned 32-bit integer survives the four network-order bytes. |
| SocketBuffers.IntBytesValue | xcompile/log4cplus-1.1.2/src/socketbuffer.cxx:222-235 | The four bytes of an integer, most significant first, by value. |
| SocketBuffers.SignedRoundTrip | xcompile/log4cplus-1.1.2/src/socketbuffer.cxx:222-235 | A signed value survives the conversion to unsigned and back if and only if it is a 32-bit integer. |
| SocketBuffers.SocketBuffer.AppendString | xcompile/log4cplus-1.1.2/src/socketbuffer.cxx:238-262 | Length and text behind what was written, or nothing at all when they do not fit. |
| SocketBuffers.SocketBuffer.AppendBuffer | xcompile/log4cplus-1.1.2/src/socketbuffer.cxx:265-276 | The other buffer behind what was written, or nothing at all when it does not fit. |
| SocketBuffers.SocketBuffer.ReadInt | xcompile/log4cplus-1.1.2/src/socketbuffer.cxx:109-128 | The integer at the cursor, which moves on, or 0 without moving at the end. |
| SocketBuffers.SocketBuffer.ReadString | xcompile/log4cplus-1.1.2/src/socketbuffer.cxx:130-188 | The string at the cursor for one- and two-byte characters, overlong lengths cut short. |
| SocketBuffers.ReadStringThrowsIff | xcompile/log4cplus-1.1.2/src/socketbuffer.cxx:130-188 | Reading a string throws if and only if its length is not 0 and the buffer ends right behind it (for characters of one or two bytes). |
| LogEvents.AppendAllIff | xcompile/log4cplus-1.1.2/src/socketappender.cxx:259-282 | Field-by-field appending produces the whole encoding if and only if the encoding fits the buffer. |
| LogEvents.ValuesComeBack | xcompile/log4cplus-1.1.2/src/socketappender.cxx:294-314 | Reading printed values back yields the values, with the cursor behind them. |
| LogEvents.DecodeEncode | xcompile/log4cplus-1.1.2/src/socketappender.cxx:259-322 | Decoding an encoded event gives the event with the NDC prefix and the width of the integers. |
| LogEvents.EncodeLayout | xcompile/log4cplus-1.1.2/src/socketappender.cxx:259-282 | The encoding, field by field. |
| LogEvents.DecodedNamesServer | xcompile/log4cplus-1.1.2/src/socketappender.cxx:294-307 | The context of every event decoded, from whatever bytes: server name, blank, dash, blank and context in this order, or whichever of the two is not empty. |
| LogEvents.ReceivedIsSame | xcompile/log4cplus-1.1.2/src/socketappender.cxx:286-322 | What is to be received has the texts of the event, its numbers modulo 2^32, and its context with the server name before it in that way. |
| LogEvents.OnlyNdcChangesIff | xcompile/log4cplus-1.1.2/src/socketappender.cxx:300-313 | Nothing but the NDC changes if and only if level and line are 32-bit integers and the time stamp is not negative and fits 32 bits. |
| LoggingServer.ConvertToBuffer | xcompile/log4cplus-1.1.2/src/socketappender.cxx:259-282 | The buffer ends up with the fields in order, those that do not fit left out. |
| LoggingServer.AppendEvent | xcompile/log4cplus-1.1.2/src/socketappender.cxx:233-240 | One length-prefixed frame within the message limit, holding the fields that fit; that is the whole encoding if and only if the encoding fits. |
| LoggingServer.ReadFull | xcompile/log4cplus-1.1.2/src/socket-unix.cxx:321-337 | Fills the buffer with the next bytes of the stream however they are chopped up; fails exactly if there are too few or none are wanted. |
| LoggingServer.ReadFromBuffer | xcompile/log4cplus-1.1.2/src/socketappender.cxx:285-322 | Decodes any bytes as specified, well-formed or not. |
| LoggingServer.Run | xcompile/log4cplus-1.1.2/loggingserver/loggingserver.cxx:93-118 | The events handed on are a function of the stream alone, not of how it was chopped up. |
| LoggingServer.FramesComeThrough | xcompile/log4cplus-1.1.2/loggingserver/loggingserver.cxx:93-118 | Framed and concatenated encodings are served in order, each as it is to be received, and then whatever follows them. |
| ArrivingEvents.ArrivesIff | xcompile/log4cplus-1.1.2/src/socketappender.cxx:233-322 | For every event: what the server decodes is the event with only the NDC prefix (and the width of integers) changed if and only if its encoding fits up to the last value that is neither an empty text nor 0. |
| ArrivingEvents.FittingArrives | xcompile/log4cplus-1.1.2/src/socketappender.cxx:233-322 | In particular if the whole encoding fits. |
| ArrivingEvents.ShorterText | xcompile/log4cplus-1.1.2/src/socketbuffer.cxx:130-188 | A text that was left out is longer than anything that can be read in its place. |
| ArrivingEvents.SendAndServe | xcompile/log4cplus-1.1.2/src/socketappender.cxx:233-322 | End to end, for every chopping of the stream: the server receives the events in order, with only the NDC prefix changed, if and only if every one of them arrives; then each has the texts and numbers of the event sent, and its context is server name, " - " and context. |
| TruncatedEvents.MessageIsSent | xcompile/log4cplus-1.1.2/src/socketappender.cxx:233-282 | What reaches the buffer of any event is version, character size and exactly the values that still fit, in order. |
| TruncatedEvents.FirstWrongIsInt | xcompile/log4cplus-1.1.2/src/socketappender.cxx:259-322 | Whatever is left out, the first value of a kind the receiver does not expect is an integer where a text is due. |
| TruncatedEvents.UndecodableIff | xcompile/log4cplus-1.1.2/src/socketappender.cxx:259-322 | For every event: the server cannot decode what arrives if that integer is the last value and not 0; it can if there is none, if it is 0 and the last value, or if it exceeds what follows it. |
| TruncatedEvents.UndecodableAtFileIff | xcompile/log4cplus-1.1.2/src/socketappender.cxx:277-281 | For events that fit up to their time stamp, exactly which cannot be decoded, by the sizes of their texts, the line number and, if the function name fits without the file name, its last four characters. |
| TruncatedEvents.ConnectionLost | xcompile/log4cplus-1.1.2/loggingserver/loggingserver.cxx:93-118 | The events before an undecodable one are served; it ends the connection, and nothing sent behind it is served. |
| TruncatedEvents.LongMessageLosesConnection | xcompile/log4cplus-1.1.2/src/socketappender.cxx:233-248 | Concrete events: a message of 8150 characters with a file name of 5 and any line but 0. |
| TruncatedEvents.ShortestUndecodable | xcompile/log4cplus-1.1.2/src/socketappender.cxx:285-298 | Concrete message: six bytes that end in a string length of 1. |
| HexText.UnhexDigits | xcompile/lmdb-LMDB_0.9.19/libraries/liblmdb/mdb_load.c:162-174 | The two digits printed for a byte are hexadecimal digits and decode to that byte, for all 256. |
| HexText.HexOf | xcompile/lmdb-LMDB_0.9.19/libraries/liblmdb/mdb_dump.c:54-60 | A byte is printed as the two characters of "0123456789abcdef" for its two halves. |
| HexText.IsDigitIff | xcompile/lmdb-LMDB_0.9.19/libraries/liblmdb/mdb_load.c:262 | The characters read as digits are those and their upper-case forms. |
| HexText.UnhexValue | xcompile/lmdb-LMDB_0.9.19/libraries/liblmdb/mdb_load.c:162-174 | Two digits are read as sixteen times the first plus the second. |
| HexText.DigitValue | xcompile/lmdb-LMDB_0.9.19/libraries/liblmdb/mdb_load.c:162-174 | The value of a digit is its position among them. |
| HexText.DecodedHex | xcompile/lmdb-LMDB_0.9.19/libraries/liblmdb/mdb_load.c:261-269 | Decoding the digits of any byte string gives the string. |
| HexText.ReadHexLine | xcompile/lmdb-LMDB_0.9.19/libraries/liblmdb/mdb_load.c:176-275 | A printed line is read back whatever follows it. |
| HexText.HexLineLayout | xcompile/lmdb-LMDB_0.9.19/libraries/liblmdb/mdb_dump.c:81-92 | A printed line, character by character. |
| HexText.LoadDump | xcompile/lmdb-LMDB_0.9.19/libraries/liblmdb/mdb_dump.c:136-149 | Loading a dump gives back every pair in order and ends at the end mark. |
| DumpLoad.DumpIt | xcompile/lmdb-LMDB_0.9.19/libraries/liblmdb/mdb_dump.c:81-149 | The dump loops print exactly the text the round trip is about. |
| DumpLoad.NextChunk | xcompile/lmdb-LMDB_0.9.19/libraries/liblmdb/mdb_load.c:212-230 | One growth of the line buffer: the line so far is kept, all writes stay inside the doubled allocation, and the gathered part grows. |
| DumpLoad.GatherLine | xcompile/lmdb-LMDB_0.9.19/libraries/liblmdb/mdb_load.c:201-234 | The line is gathered whatever its length and the buffer size; a missing newline is an error. |
| DumpLoad.DecodeInPlace | xcompile/lmdb-LMDB_0.9.19/libraries/liblmdb/mdb_load.c:254-269 | The write pointer never overtakes the digits still to be read: the buffer ends up with the decoding of its old contents, or the digits were bad. |
| DumpLoad.ReadLine | xcompile/lmdb-LMDB_0.9.19/libraries/liblmdb/mdb_load.c:176-275 | `readline` on any NUL-free input: the decoded line, the end of the data, an error or the end of the input. |
| DumpLoad.LoadAll | xcompile/lmdb-LMDB_0.9.19/libraries/liblmdb/mdb_load.c:401-439 | The reading loop computes what loading the text means, with the key still in its line buffer, not copied, while the data is read. |
| DumpLoad.DumpThenLoad | xcompile/lmdb-LMDB_0.9.19/libraries/liblmdb/mdb_load.c:401-439 | Dump, then load with line buffers of any size from 8 on: every pair comes back in order. |
| RollingFiles.ShiftKeepsOrder | xcompile/log4cplus-1.1.2/src/fileappender.cxx:164-184 | Shifting the backups, gaps included, keeps their order and drops the last one only. |
| RollingFiles.RollingFileAppender.RolloverFiles | xcompile/log4cplus-1.1.2/src/fileappender.cxx:150-185 | Every backup i moves to i + 1, the last is removed, and number 1 is free. |
| RollingFiles.RollingFileAppender.Rollover | xcompile/log4cplus-1.1.2/src/fileappender.cxx:509-585 | The live file becomes backup 1 and is empty; what is lost is exactly what the last backup held. |
| RollingFiles.RollingFileAppender.Append | xcompile/log4cplus-1.1.2/src/fileappender.cxx:489-506 | Rolls over before and after writing exactly when the limit is exceeded; afterwards the live file is within it. |
| RollingFiles.RollingFileAppender.AppendAll | xcompile/log4cplus-1.1.2/src/fileappender.cxx:489-506 | Over any run of appends, backups from the oldest on and then the live file are a suffix of what they held before and everything written since; what precedes it is exactly what was deleted; and the live file is within the limit. |
| Ranges.Service.FindRange | xcompile/lib_rw_ctp7/libmemsvc.c:62-108 | A range found contains the address, is writable if it has to be, and is the first of the list that is; null means there is none, or an unaligned address. The node found moves to the front; same nodes, no cycle, all others in their order. |
| Ranges.ScanIgnoresOrder | xcompile/lib_rw_ctp7/libmemsvc.c:69-70 | When no access is served by two ranges, the answer does not depend on the order of the list. |
| Ranges.NeverNoticedIff | xcompile/lib_rw_ctp7/libmemsvc.c:62-108 | Every lookup after every history answers as a plain scan of the original list if and only if every range that can be found shares no aligned access with any range in front of it. |
| Ranges.ExclusiveIsHarmless | xcompile/lib_rw_ctp7/libmemsvc.c:69-70 | Lists in which no access is served twice are of that kind, in whatever order. |
| Ranges.Service.FindAll | xcompile/lib_rw_ctp7/libmemsvc.c:62-108 | On such a list the lookups of any history, with all the relinking, answer as plain scans of the original list. |
| Substitution.ExpandFailsIff | xcompile/log4cplus-1.1.2/src/configurator.cxx:132-142 | The left-to-right expansion fails if and only if some `${` has no `}` anywhere behind it. |
| Substitution.AnswerStep | xcompile/log4cplus-1.1.2/src/configurator.cxx:144-168 | One substitution, or one variable left as it is, does not change what the whole answer will be. |
| Substitution.SubstVars | xcompile/log4cplus-1.1.2/src/configurator.cxx:102-171 | Terminates; all or nothing: the full expansion, in which inserted text is never looked at again, or the original string and false. |
| Substitution.ExpandVariable | xcompile/log4cplus-1.1.2/src/configurator.cxx:144-168 | Behind text without variables, `${key}` gives way to its value, or stays, and the rest is expanded by itself; the value comes from properties and environment as the two flags say. |
| Substitution.ExpandPlain | xcompile/log4cplus-1.1.2/src/configurator.cxx:123-129 | Text without variables stays as it is. |
| Substitution.SubstVariable | xcompile/log4cplus-1.1.2/src/configurator.cxx:147-168 | A single variable, case by case: property before environment with the flag for it, environment alone without, empty values only if allowed. |
| Registers.Interface.ReadRegister | xhalcore/src/common/XHALInterface.cpp:73-117 | Shows the field under the mask, for every mask, or the error for an unknown name or a failing access. |
| Registers.Interface.WriteRegister | xhalcore/src/common/XHALInterface.cpp:154-207 | The word is merged under the mask, nothing else changes; errors exactly as for reading. |
| Registers.ShiftBack | xhalcore/src/common/XHALInterface.cpp:99-112 | A value shifted up under a mask and down again loses only what the shifted mask cuts off. |
| Registers.WriteMeans | xhalcore/src/common/XHALInterface.cpp:159-191 | A word is the result of a write if and only if its field shows `value & (mask >> shift)` and its bits outside the mask are the old ones. |
| Registers.FieldBits | xhalcore/src/common/XHALInterface.cpp:99-112 | The same in the operations of the processor: with the lowest bit of the mask at k, reading is `(word & mask) >> k` and writing `((value << k) & mask) | (word & ~mask)`. |
| Registers.LastWriteWins | xhalcore/src/common/XHALInterface.cpp:73-207 | After any run of writes, to this register and to others that share no bit with it, it shows its last written value cut to its mask. |
| Registers.WritesCommute | xhalcore/src/common/XHALInterface.cpp:154-207 | Writes to registers that share no bit, at one address or at two, may be exchanged. |

## Left out

- MidlSort.Sort: requires `l + ir` to stay within an `int`, about 2^30 ids; beyond that the C addition overflows.
- MidlSortMerge.SortThenMerge: for both lists together, the same.
- MidlGrow.GrowableList.AppendList: does not model appending a list to itself, whose memory the growth may move.
- MidlGrow.GrowableList.Need: excludes sums that wrap around in `unsigned`.
- Allocation failure anywhere, `mdb_midl_shrink`, `mdb_midl_free` and the disabled `mdb_midl_insert`.
- Hierarchies.Hierarchy.GetInstance: loggers are made by the default factory; the error branches for a failed map insertion, which cannot fail there, and the locking are not modelled.
- `clear`, `shutdown` and `resetConfiguration` of the hierarchy, and the locking of appender lists; an appender is a number.
- QueueCode.Queue.Put: models the part under the mutex; exceptions from mutex, semaphore or event, which the code turns into error bits, are not modelled.
- QueueCode.Queue.Exit: the same.
- QueueCode.Queue.Get: the same.
- The internals of mutex, semaphore and event (`syncprims-pthreads.h`): the event's wait is two steps, a look at `signaled` and a sleep until its signal counter changes; the counter is unbounded, and a limit above `SEM_VALUE_MAX` counts as that.
- `AsyncAppender::append` and `close` around the queue, and the joining of the consumer thread; a caller of the protocol may call in any order.
- The framing of whole IPbus packets, `run_io`, sockets, status packets and access lists; only the two header tests of `process_frame` are modelled.
- SocketBuffers.SocketBuffer.AppendString: models builds without UNICODE, which write one byte a character; the reading of two-byte characters is modelled.
- SocketBuffers.SocketBuffer.ReadString: the exception thrown for a truncated string is the result `None`; what happens to a thread after it is not modelled beyond the end of the decoding.
- TruncatedEvents.UndecodableIff: says nothing for events with a text before the time stamp left out and then a level or time stamp, other than at the end, that is no larger than what follows it: what is decoded then depends on the bytes of the texts behind it.
- LoggingServer.ReadFull: a read error ends the stream as its end does, since the caller treats both alike.
- LogEvents.OnlyNdcChangesIff: time stamps travel as unsigned 32-bit numbers, so those before 1970 or after 2106 change; the mapped diagnostic context is not sent.
- Partial sends, reconnection and select loops.
- DumpLoad.DumpIt: the header lines of dumps, the print format and the interrupt flag are not modelled.
- DumpLoad.ReadLine: requires input without NUL characters, where `strlen` would not see the whole line; dumps have none (`HexText.DumpHasNoZero`). The print format and `-n` are not modelled.
- DumpLoad.LoadAll: line buffers have at least 8 bytes, as the end mark is compared in place; what happens to pairs in the database (`mdb_cursor_put`, batches of 100) is not modelled.
- RollingFiles.RollingFileAppender.Rollover: lock files, failing renames and Windows branches are not modelled; the reopened stream is taken to be at the end of the file.
- RollingFiles.RollingFileAppender.Append: the position of a stream just opened for appending to a file found on disk is taken to be the end of that file.
- `DailyRollingFileAppender`, which needs the calendar of the C library.
- Ranges.Service.FindRange: the mappings made for a range it activates, and block access of the memory service, are not modelled.
- Substitution.SubstVars: recursive expansion, which need not end, and the logging of unclosed variables are not modelled.
- Registers.Interface.ReadRegister: for an unknown name the code appends to a string literal before it throws, which C++ leaves undefined (`XHALInterface.cpp:115`), and the model just reports the error; an access fails exactly if the address is not in the memory; lost connections, and the reply size assertion, are not modelled.
- Registers.Interface.WriteRegister: the same (`XHALInterface.cpp:205`); an empty mask shifts by 32, which C++ leaves undefined; the model takes the shifted value to be 0, and the empty mask hides it.
- The Python tools, web views, other appenders, and the register address table's XML.
