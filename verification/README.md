# Verification model of the COMMS library and the CommsChampion tools

This project models four parts of the repository and proves what they promise.

**The send scheduler** (`DeltaList`, `Schedule`, `SendRun`, `MsgSendMgr`). Messages wait in a
list of relative delays; a single-shot timer is armed with the first of them. `DeltaList` is the
list as a value, `Schedule` the intended schedule in absolute time, `SendRun` whole runs with an
ideal timer, and `MsgSendMgr` the class with its message objects, list and timer, each method
proved against `DeltaList` and `SendRun`. The main result is `SendRun.ExactSchedule`: no absolute
time is stored anywhere, yet every copy of every message goes out exactly at its deadline, and
copies with the same deadline go out in an order that is determined and total.

**Message dispatch** (`IdTuples`, `LinearSwitch`, `StaticBinSearch`, `Polymorphic`,
`DispatchChoice`). A tuple of message types is the sorted sequence of its IDs. Every strategy is
compared with one reference selection, "the type number `index` among those with this ID". The
functions of each strategy stand for its message-object and its type form alike; the result is
the position of the selected type, or nothing for the default handler.

**Stream processing** (`Process`). The resynchronising loops over a byte buffer, against a
declarative partition of the buffer, with chunk invariance and the handler calls end to end. The
frame is a function of the remaining bytes; `StaysInside`, `NeverIdles` (in the buffer that is
processed) and `Stable` (for chunks) say what is required of it.

**Message log and files** (`MsgLog`, `HexData`, `MsgFile`). Numbering and deletion in the log, the
hexadecimal text of message data, and what saving, loading and replaying a list does to the
schedule. `Basics.dfy` holds the optional value and the byte type.

## Findings

- The static binary search over types that share an ID restarts its right half at the offset of
  the midpoint and not at the start of the range plus that offset
  (`comms/include/comms/details/DispatchMsgStaticBinSearchHelper.h`, lines 484-490 and 557-563).
  The documentation (`comms/doc/page_dispatch.dox`, lines 247-257) promises the indexed type for
  every run. The model follows the code: `DispatchChoice.LastOfThreeMissed`,
  `OneBeforeSelected` and `OtherIdSelected` are inputs that miss it, and `StaticBinSearchSelects`,
  `StrategyIndependentExactly` and `AutomaticExactly` say exactly when the promise is kept. Dispatch without an index is not
  affected.
- Timestamps are subtracted as unsigned numbers when a record is loaded for sending, so a message
  recorded with a smaller timestamp than the one before it gets a huge delay.
  `MsgFile.DecreasingRecord` is such a record: stamped 5 and then 3, the second message gets a
  delay of 2^64 - 2. `MsgFile.SpacingExactly` gives the exact condition under which the spacing is
  kept.
- `processAllWithDispatch` (`comms/include/comms/process.h`, lines 252-268) does not terminate where
  a frame ends a read with any status but "not enough data" and "protocol error" without advancing
  the iterator. `Process.RefusedForEver` is such a frame and buffer, `Process.IdlesForEver` shows
  the endless attempts, and `Process.EndsExactly` that processing ends exactly if the frame does
  this nowhere in the buffer. The protocol layers of the library are not part of this model; a layer
  that consumes the field it refuses is not such a frame.
- The filler of the direct dispatch table writes to the slot of an ID converted to an unsigned
  number (`comms/include/comms/details/DispatchMsgPolymorphicHelper.h`, line 172), and nothing checks
  that IDs are not negative. The tuple with IDs -1 and 3 is strictly sorted and chosen for this
  table, and its first write is far outside (`Polymorphic.NegativeIdOutside`).
  `Polymorphic.FillInBoundsExactly` and `Polymorphic.TableExistsExactly` give the exact conditions.
- A message object that is added to the log again is renumbered in both places, so that the log is
  no longer numbered increasingly, and deletion may find another message
  (`MsgLog.SearchMissesReadded`). All operations of `MsgLog.MsgMgr` keep
  `Numbered`: the numbers increase exactly if no object is in the log twice.
- A message of a send list that the protocol cannot create when the list is loaded takes its delay
  with it, so that all later ones are sent earlier: `MsgFile.FirstMessageLost` is such a list,
  `MsgFile.LostDelaysShift` says by how much, and `MsgFile.SendListSameRunExactly` that this is the
  only difference in what is sent.

## Model

| member | source | states |
|---|---|---|
| `IdTuples.AllMessagesAreStrongSorted` | comms/include/comms/details/message_check.h:93-105 | the check over neighbours holds exactly if every ID is smaller than all later ones |
| `IdTuples.AllMessagesAreWeakSorted` | comms/include/comms/details/message_check.h:126-138 | the check over neighbours holds exactly if no ID is larger than a later one |
| `IdTuples.SelectMeaning` | comms/include/comms/dispatch.h:671-684 | the reference selection: it answers exactly when the tuple has more than `index` types with the ID, and names the one that `index` others with this ID precede |
| `IdTuples.SelectFromRun` | comms/include/comms/dispatch.h:671-684 | in a sorted tuple the selected type is `index` places after the start of the ID's run, and there is none beyond the run |
| `IdTuples.CountSameIdsInRun` | comms/include/comms/details/DispatchMsgLinearSwitchHelper.h:194-227 | started anywhere inside a run, the compile-time counter measures exactly what is left of the run |
| `LinearSwitch.WalkOffset` | comms/include/comms/details/DispatchMsgLinearSwitchHelper.h:302-327 | the walk inside a run lands `offset` types further, or on the default handler beyond the run |
| `LinearSwitch.StrongWalkSelects` | comms/include/comms/details/DispatchMsgLinearSwitchHelper.h:46-161 | the strong walk selects the first type with the ID, for every tuple and every number of types left |
| `LinearSwitch.WeakWalkSelects` | comms/include/comms/details/DispatchMsgLinearSwitchHelper.h:255-327 | from the head of any run on, the run-skipping walk equals the reference for every ID, offset and run length |
| `LinearSwitch.DispatchSelects` | comms/include/comms/details/DispatchMsgLinearSwitchHelper.h:612-720 | both entry points equal the reference on every sorted tuple |
| `StaticBinSearch.StrongSearchFinds` | comms/include/comms/details/DispatchMsgStaticBinSearchHelper.h:48-219 | in any remaining range of a strictly sorted tuple the search that keeps the midpoint in its right half finds the type with the ID if the range has it, and counts it |
| `StaticBinSearch.WeakStartIdxInRun` | comms/include/comms/details/DispatchMsgStaticBinSearchHelper.h:270-296 | going back from any type of a run stops at the first type of the run |
| `StaticBinSearch.MidRangeExact` | comms/include/comms/details/DispatchMsgStaticBinSearchHelper.h:361-400 | in every reachable range the middle run is found exactly: the cap that omits the start of the range and may wrap around never cuts it, and both remaining ranges are reachable again |
| `StaticBinSearch.WeakSearchFinds` | comms/include/comms/details/DispatchMsgStaticBinSearchHelper.h:409-459 | from every reachable range holding the ID's run, the search reaches that run and searches the offset in it; otherwise it ends at the default handler |
| `StaticBinSearch.WeakTypeCountFinds` | comms/include/comms/details/DispatchMsgStaticBinSearchHelper.h:570-602 | from every reachable range holding the ID's run, the counting search returns the length of the run |
| `StaticBinSearch.SearchOffsetBounds` | comms/include/comms/details/DispatchMsgStaticBinSearchHelper.h:461-495 | the offset search always lands on a type, never beyond the wanted one |
| `StaticBinSearch.SearchOffsetExact` | comms/include/comms/details/DispatchMsgStaticBinSearchHelper.h:461-495 | it lands on the wanted type exactly if the offset is the length of the run halved some number of times or, for the run at the front of the tuple, lies so in a gap between two halvings |
| `StaticBinSearch.SearchOffsetInGap` | comms/include/comms/details/DispatchMsgStaticBinSearchHelper.h:461-495 | where the search ends for any other offset: between two halvings it goes on to the right of the lower one, with the count that the source gives the right half |
| `StaticBinSearch.RunServed` | comms/include/comms/details/DispatchMsgStaticBinSearchHelper.h:541-568 | every offset of a run is served exactly if the run has at most two types, or is at the front of the tuple and has at most four |
| `DispatchChoice.StrongSearchSelects` | comms/include/comms/details/DispatchMsgStaticBinSearchHelper.h:935-965 | on strictly sorted tuples the static binary search equals the reference |
| `DispatchChoice.StaticSearchExact` | comms/include/comms/details/DispatchMsgStaticBinSearchHelper.h:946-989 | for every sorted tuple, ID and index, the static binary search equals the reference exactly if the tuple is strictly sorted, the index is out of the run, or the index is served |
| `DispatchChoice.TypeCountExact` | comms/include/comms/details/DispatchMsgStaticBinSearchHelper.h:1057-1097 | the static type count equals the number of types with the ID, for every sorted tuple and ID |
| `Polymorphic.LowerBoundSplits` | comms/include/comms/details/DispatchMsgPolymorphicHelper.h:384-391 | exactly the smaller numbers of a sorted range lie before the lower bound |
| `Polymorphic.UpperBoundSplits` | comms/include/comms/details/DispatchMsgPolymorphicHelper.h:398-405 | exactly the numbers that are not larger lie before the upper bound |
| `Polymorphic.BoundsDelimitRun` | comms/include/comms/details/DispatchMsgPolymorphicHelper.h:384-407 | lower bound and the upper bound from there on delimit the run of every ID |
| `Polymorphic.LookupSelects` | comms/include/comms/details/DispatchMsgPolymorphicHelper.h:363-417 | the searches, which read the IDs from the filled table, equal the reference for all offsets and run lengths |
| `Polymorphic.FillBinSearchRegistry` | comms/include/comms/details/DispatchMsgPolymorphicHelper.h:199-241 | the table the searches read holds the types in the order of the tuple |
| `Polymorphic.SuitableExactly` | comms/include/comms/details/DispatchMsgPolymorphicHelper.h:432-455 | a tuple is suitable for the direct table exactly if it is empty, or its last ID is not negative and at most n + 10, or ten times that ID is at most 11n |
| `Polymorphic.FillDirectRegistry` | comms/include/comms/details/DispatchMsgPolymorphicHelper.h:156-197 | whenever all writes are inside the table: it has a slot for every index up to that of the last ID; every type is in the slot of its ID and the other slots are empty; where this table is chosen it has at most max(n + 11, 11n/10 + 1) slots |
| `Polymorphic.FillInBoundsExactly` | comms/include/comms/details/DispatchMsgPolymorphicHelper.h:166-173 | for every strictly sorted tuple, the writes are inside the table exactly if no ID is negative, or all are and the size of the table, the last ID plus one, does not wrap around to zero |
| `Polymorphic.NegativeIdOutside` | comms/include/comms/details/DispatchMsgPolymorphicHelper.h:172 | a strictly sorted tuple that is chosen for the direct table and has no filled table, since a negative ID is written outside |
| `Polymorphic.TableExistsExactly` | comms/include/comms/details/DispatchMsgPolymorphicHelper.h:156-241 | a tuple has a filled table, direct or for searching, exactly if the direct one is not chosen or no ID is negative |
| `Polymorphic.DirectLookupSelects` | comms/include/comms/details/DispatchMsgPolymorphicHelper.h:268-286 | the lookup in the filled table equals the reference for every ID, also negative or unknown |
| `Polymorphic.DispatchSelects` | comms/include/comms/details/DispatchMsgPolymorphicHelper.h:607-652 | both entry points equal the reference on every sorted tuple, whichever table is chosen; a filled table is presumed, which exists unless a negative ID meets the direct table (`TableExistsExactly`) |
| `DispatchChoice.ByIdStrategyIndependent` | comms/include/comms/dispatch.h:549-605 | without an index, the automatic and all forced strategies select the first type with the ID, or the default handler; a filled table is presumed, which exists unless a negative ID meets the direct table (`TableExistsExactly`) |
| `DispatchChoice.LinearSwitchSelects` | comms/include/comms/MsgDispatcher.h:136-142 | the forced linear switch selects what the reference selects, for every sorted tuple, ID, index and run length |
| `DispatchChoice.PolymorphicSelects` | comms/include/comms/MsgDispatcher.h:73-155 | so does the forced polymorphic strategy with a filled table |
| `DispatchChoice.StaticBinSearchSelects` | comms/include/comms/MsgDispatcher.h:73-155 | the forced static binary search does so exactly if the tuple is strictly sorted, the index is beyond the run, or the index is served, and otherwise selects where its search for the index ends |
| `DispatchChoice.AutomaticChoice` | comms/include/comms/dispatch.h:549-613 | the automatic choice does what the polymorphic strategy does exactly if the last ID is not negative and at most n + 10 or 11n/10, and otherwise what the static binary search does |
| `DispatchChoice.LongRunMissed` | comms/include/comms/details/DispatchMsgStaticBinSearchHelper.h:484-490 | every tuple with a longer run has an ID and an index for which the static binary search selects a wrong type |
| `DispatchChoice.StaticExactly` | comms/include/comms/MsgDispatcher.h:115-134 | the forced static binary search is right for every ID and index exactly if no ID has more than two types, or up to four for the first ID |
| `DispatchChoice.StrategyIndependentExactly` | comms/include/comms/MsgDispatcher.h:73-155 | with an index, all strategies equal the reference for every ID and index exactly if no ID has more than two types, or up to four for the first ID; a filled table is presumed, which exists unless a negative ID meets the direct table (`TableExistsExactly`) |
| `DispatchChoice.AutomaticExactly` | comms/include/comms/dispatch.h:549-613 | the automatic choice is right for every ID and index exactly if the last ID is that small for the number of types, or the runs are that short; a filled table is presumed, which exists unless a negative ID meets the direct table (`TableExistsExactly`) |
| `DispatchChoice.LastOfThreeMissed` | comms/include/comms/details/DispatchMsgStaticBinSearchHelper.h:484-490 | a tuple in which the last of three types with one ID is missed and the first is selected |
| `DispatchChoice.OneBeforeSelected` | comms/include/comms/details/DispatchMsgStaticBinSearchHelper.h:484-490 | a tuple in which the last of five types is missed and the one before it is selected |
| `DispatchChoice.OtherIdSelected` | comms/include/comms/details/DispatchMsgStaticBinSearchHelper.h:557-563 | a tuple in which a type with another ID is selected instead |
| `Process.TakesConcat` | comms/include/comms/process.h:59-88 | taking pieces of the input and then more pieces of what is left is taking them all |
| `Process.Partition` | comms/include/comms/process.h:252-268 | every buffer splits into contiguous skipped bytes and completed reads, as far as the frame gets |
| `Process.PartitionHalts` | comms/include/comms/process.h:252-268 | that is to where it needs more data, or completes a read without consuming anything |
| `Process.PartitionUnique` | comms/include/comms/process.h:252-268 | a buffer that is taken apart up to where the frame needs more data is so in one way only |
| `Process.EndsExactly` | comms/include/comms/process.h:252-268 | a buffer is taken apart up to where more data is needed exactly if nowhere in it the frame completes a read without consuming anything |
| `Process.IdlesForEver` | comms/include/comms/process.h:252-268 | where it does, any number of further attempts is made, none of which consumes a byte |
| `Process.RefusedForEver` | comms/include/comms/process.h:252-268 | a frame, which stays inside the data and is stable, and a buffer of one byte whose processing does not end |
| `Process.ProcessSingle` | comms/include/comms/process.h:52-89 | the iterator is advanced by contiguous pieces: bytes skipped after protocol errors and then the first completed read, whose status and message are reported, or only skipped bytes if more data is needed |
| `Process.ProcessSingleWithDispatch` | comms/include/comms/process.h:119-221 | only bytes skipped after protocol errors and then the one completed read are consumed, and the status of this read is returned; the handler is called with the selected type for a successful read and not otherwise |
| `Process.ProcessAllWithDispatch` | comms/include/comms/process.h:246-318 | the nested loops terminate for every buffer in which the frame does not idle; the consumed bytes are exactly the partition of the buffer, and the handler is called once for every successful read, in order |
| `Process.ResumeAfterMore` | comms/include/comms/process.h:235-236 | taking apart what has arrived and later the kept rest with what arrived since takes apart the whole |
| `Process.ChunkInvariance` | comms/include/comms/process.h:235-269 | for every way to cut the input into chunks, keeping unconsumed bytes, the pieces are those of the whole input at once: same messages, same order, same number of consumed bytes, same bytes kept |
| `Process.ProcessChunks` | comms/include/comms/process.h:235-269 | the caller that processes chunk by chunk and removes what was consumed makes the handler calls, and is left with the bytes, of the whole input at once |
| `Process.HandlesAllExactly` | comms/include/comms/process.h:294-318 | over all frames and buffers whose processing ends, a strategy makes the handler calls of the reference exactly if it selects what the reference selects for every ID and index |
| `Process.StreamsByStrategy` | comms/include/comms/process.h:294-318 | so the linear switch and the polymorphic strategy always do, the static binary search exactly for short runs, and the automatic choice exactly for these or a small last ID; a filled table is presumed, which exists unless a negative ID meets the direct table (`TableExistsExactly`) |
| `Process.StreamsHandledExactly` | comms/include/comms/process.h:294-318 | over all frames and buffers whose processing ends, every strategy makes the handler calls of the reference exactly if the runs of the tuple are short; a filled table is presumed, which exists unless a negative ID meets the direct table (`TableExistsExactly`) |
| `DeltaList.ReinsertIsStableInsert` | comms_champion/lib/src/MsgSendMgrImpl.cpp:103-139 | read as absolute deadlines, putting a message back is the insertion into a stable priority queue |
| `DeltaList.StableInsertPosition` | comms_champion/lib/src/MsgSendMgrImpl.cpp:103-116 | that insertion puts the entry behind all that are due no later, before one that is due later, and changes nothing else |
| `DeltaList.ReinsertBehindDue` | comms_champion/lib/src/MsgSendMgrImpl.cpp:83-85 | messages that are due now stay in front of everything put back |
| `DeltaList.WalkAndPut` | comms_champion/lib/src/MsgSendMgrImpl.cpp:104-139 | the subtracting walk, the shortened successor and the insertion are the re-insertion; the delays never underflow |
| `DeltaList.TimerArmed` | comms_champion/lib/src/MsgSendMgrImpl.cpp:143-151 | after a step the timer is armed exactly if messages are left, with a positive interval, and the first message then has no delay left |
| `DeltaList.StepConserves` | comms_champion/lib/src/MsgSendMgrImpl.cpp:87-141 | without endless messages a step lowers the number of messages still to be sent by exactly the number it sends |
| `Schedule.BeforeIrreflexive` | comms_champion/lib/src/MsgSendMgrImpl.cpp:83-141 | no copy is sent before itself in the intended order |
| `Schedule.BeforeTransitive` | comms_champion/lib/src/MsgSendMgrImpl.cpp:83-141 | the intended order of copies is transitive |
| `Schedule.BeforeTotal` | comms_champion/lib/src/MsgSendMgrImpl.cpp:83-141 | the intended order decides between any two copies |
| `Schedule.OrderedUnique` | comms_champion/lib/src/MsgSendMgrImpl.cpp:83-141 | a set of copies can be sent in one intended order only |
| `Schedule.StartConsistent` | comms_champion/lib/src/MsgSendMgrImpl.cpp:37-61 | the list given to the scheduler starts consistently with the schedule |
| `Schedule.SentOrWaits` | comms_champion/lib/src/MsgSendMgrImpl.cpp:87-141 | every wanted copy was sent, or an earlier or equal copy of its message waits |
| `Schedule.SendAndPutBack` | comms_champion/lib/src/MsgSendMgrImpl.cpp:87-140 | sending a copy and inserting the next one behind those that are not later keeps the order over the whole run |
| `SendRun.RepeatedIsNext` | comms_champion/lib/src/MsgSendMgrImpl.cpp:88-93 | the code puts a message back exactly if its next copy is wanted, with the deadline and count of that copy |
| `SendRun.SendDue` | comms_champion/lib/src/MsgSendMgrImpl.cpp:83-141 | splicing all due messages and then putting them back one by one sends exactly the copies of this moment and keeps the list in step with the schedule |
| `SendRun.StepDescribes` | comms_champion/lib/src/MsgSendMgrImpl.cpp:70-160 | one step of the scheduler, from any consistent state, sends the waiting copies of this moment at this moment |
| `SendRun.ExactSchedule` | comms_champion/lib/src/MsgSendMgrImpl.cpp:37-160 | after any number of timeouts, what was sent is exactly the wanted copies with a moment before the next timeout (all of them if none is to come), each at first deadline + k * repeat duration, in the intended order |
| `SendRun.TimeAdvances` | comms_champion/lib/src/MsgSendMgrImpl.cpp:143-151 | while the timer is armed, time goes on at every timeout |
| `SendRun.EveryCopySent` | comms_champion/lib/src/MsgSendMgrImpl.cpp:70-160 | every wanted copy, also of an endless message, is sent at its moment after a bounded number of timeouts |
| `SendRun.CompletionReported` | comms_champion/lib/src/MsgSendMgrImpl.cpp:157-159 | completion is reported once, when the list becomes empty, and not before |
| `SendRun.RunConserves` | comms_champion/lib/src/MsgSendMgrImpl.cpp:87-155 | over the whole run, sent and pending messages add up to the counts, and every timeout sends something |
| `SendRun.Completes` | comms_champion/lib/src/MsgSendMgrImpl.cpp:87-159 | without endless messages the run ends after at most as many timeouts as there are copies, having sent exactly that many, with completion reported once and no timer armed |
| `SendRun.NeverCompletes` | comms_champion/lib/src/MsgSendMgrImpl.cpp:91-159 | with an endless message the run never completes |
| `MsgSendMgr.MsgSendMgr.Start` | comms_champion/lib/src/MsgSendMgrImpl.cpp:37-61 | clones are listed and the first step is made: the state is that of a started run, the record is that of the objects handed to the callback, which carry the due payloads, and neither they nor the given messages are in the list |
| `MsgSendMgr.MsgSendMgr.Stop` | comms_champion/lib/src/MsgSendMgrImpl.cpp:63-68 | nothing waits, no timer is armed, the protocol is given up, and nothing more is reported |
| `MsgSendMgr.MsgSendMgr.TimerFires` | comms_champion/lib/src/MsgSendMgrImpl.cpp:70-160 | a timeout is one step of the run, at the moment the timer was armed for; the record grows by the objects handed to the callback, which carry the due payloads and are not in the list: new ones for repeated messages, and otherwise the messages themselves, unchanged |
| `MsgSendMgr.MsgSendMgr.SendPendingAndWait` | comms_champion/lib/src/MsgSendMgrImpl.cpp:70-160 | the whole new state is that of the step; the objects handed to the callback carry the due payloads in order, are what is recorded, and are not in the list: new ones for repeated messages, and otherwise the messages themselves, unchanged |
| `MsgSendMgr.MsgSendMgr.SpliceDue` | comms_champion/lib/src/MsgSendMgrImpl.cpp:73-85 | exactly the due messages leave the list, in order |
| `MsgSendMgr.MsgSendMgr.PutBackRepeated` | comms_champion/lib/src/MsgSendMgrImpl.cpp:87-141 | repeated message objects go back to the list, clones of them are sent, and no object is both sent and kept |
| `MsgSendMgr.MsgSendMgr.PutBack` | comms_champion/lib/src/MsgSendMgrImpl.cpp:103-139 | delay and count are overwritten and the list changes as the re-insertion says, without duplicating an object |
| `MsgSendMgr.RunFor` | comms_champion/lib/src/MsgSendMgrImpl.cpp:37-160 | start and any number of timeouts bring the manager into the state of the run whose sends `SendRun.ExactSchedule` determines, and all objects handed to the callback carry, in order, the payloads of its record |
| `HexData.EncodeMsgData` | comms_champion/lib/src/MsgFileMgr.cpp:204-214 | the loop writes two lower-case digits for every byte and blanks between bytes only |
| `HexData.PrintedLayout` | comms_champion/lib/src/MsgFileMgr.cpp:204-214 | the written form has two digits for every byte, in order, and one blank between any two bytes |
| `HexData.StripData` | comms_champion/lib/src/MsgFileMgr.cpp:233-243 | exactly the ASCII hexadecimal digits are kept, in order |
| `HexData.KeptExactly` | comms_champion/lib/src/MsgFileMgr.cpp:233-263 | when digits of all scripts are kept, as in the code, the conversion succeeds exactly if the text has none but the ASCII ones, and then what is kept is the same |
| `HexData.PairDigits` | comms_champion/lib/src/MsgFileMgr.cpp:249-265 | every two digits become one byte |
| `HexData.ParseMsgData` | comms_champion/lib/src/MsgFileMgr.cpp:233-265 | the loops compute the parsed data of any text, an odd number of digits included |
| `HexData.ParsedNumber` | comms_champion/lib/src/MsgFileMgr.cpp:245-265 | for every text, odd digit counts included, the bytes that are read are as many as its digits need, and mean the same number to the base 256 as the digits to the base 16 |
| `HexData.ParsePrinted` | comms_champion/lib/src/MsgFileMgr.cpp:187-265 | reading the written form of any data gives the data back |
| `HexData.PrintParsed` | comms_champion/lib/src/MsgFileMgr.cpp:187-265 | writing what was read from any text without digits of other scripts gives its digits, completed to an even number, in lower case |
| `MsgFile.ConvertRecvMsgList` | comms_champion/lib/src/MsgFileMgr.cpp:338-358 | a record is saved message by message with its timestamps, without messages that have neither ID nor data |
| `MsgFile.SavedRecvAt` | comms_champion/lib/src/MsgFileMgr.cpp:312-358 | there is one entry for each message with an ID or data, in order, from which ID, data and timestamp can be read back, and no other entry |
| `MsgFile.ConvertSendMsgList` | comms_champion/lib/src/MsgFileMgr.cpp:393-428 | a send list is saved message by message with its properties |
| `MsgFile.LoadItem` | comms_champion/lib/src/MsgFileMgr.cpp:446-485 | the delay of a recorded entry leads from the remembered timestamp to its own, modulo 2^64, and this is remembered; other entries keep their properties, but for the count of a message without repetition |
| `MsgFile.LoadSendMsgList` | comms_champion/lib/src/MsgFileMgr.cpp:430-491 | the loop loads the entries the protocol can create, remembering the timestamp before |
| `MsgFile.LoadedAt` | comms_champion/lib/src/MsgFileMgr.cpp:430-491 | for any list of entries, the loaded messages are those that can be created; a record is delayed by the distance from the last record before it, across entries that are none, and other entries keep their properties |
| `MsgFile.CountMadeOne` | comms_champion/lib/src/MsgFileMgr.cpp:454-455 | a message without repeat duration and count is loaded to be sent once |
| `MsgFile.NoDigitsStillCreated` | comms_champion/lib/src/MsgFileMgr.cpp:229-265 | an entry whose text holds no digits still asks the protocol for a message, one without data |
| `MsgFile.SavedCreated` | comms_champion/lib/src/MsgFileMgr.cpp:217-307 | a saved message is created again, with the same ID and data, exactly if it survives |
| `MsgFile.RecordedLoads` | comms_champion/lib/src/MsgFileMgr.cpp:430-491 | loading a saved record for sending gives the surviving messages once each, with timestamp differences as delays |
| `MsgFile.SpacingExactly` | comms_champion/lib/src/MsgFileMgr.cpp:467-477 | the delays add up to the distance from the first timestamp, for every message, exactly if the timestamps never decrease |
| `MsgFile.DecreasingRecord` | comms_champion/lib/src/MsgFileMgr.cpp:467-477 | a record stamped 5 and then 3 is loaded with a second delay of 2^64 - 2 |
| `MsgFile.OnceEach` | comms_champion/lib/src/MsgSendMgrImpl.cpp:87-159 | a list without repetition is sent once, in order, and then the run is complete |
| `MsgFile.ReplayKeepsSpacing` | comms_champion/lib/src/MsgFileMgr.cpp:430-491 | a record with timestamps that never decrease, saved, loaded and given to the scheduler, is sent at timestamp minus first timestamp, message by message |
| `MsgFile.SendListRoundTripExactly` | comms_champion/lib/src/MsgFileMgr.cpp:393-491 | a send list that is saved and loaded is the same list exactly if the protocol can create all its messages again and none lacks both repeat duration and count |
| `MsgFile.LostDelaysShift` | comms_champion/lib/src/MsgFileMgr.cpp:437-441 | every copy of a message that can be created again is sent earlier by exactly the delays of the messages lost before it |
| `MsgFile.FirstMessageLost` | comms_champion/lib/src/MsgFileMgr.cpp:437-441 | a list of which the first message is lost, so that the second is sent five milliseconds too early |
| `MsgFile.SendListSameRunExactly` | comms_champion/lib/src/MsgFileMgr.cpp:393-491 | the loaded list is sent at the same moments in the same order as the saved one, and completes alike, exactly if the protocol can create all its messages again |
| `MsgLog.LowerBoundFinds` | comms_champion/lib/src/MsgMgrImpl.cpp:147-154 | among strictly increasing numbers the lower bound of a stored number is its position |
| `MsgLog.SearchMissesReadded` | comms_champion/lib/src/MsgMgrImpl.cpp:147-154 | a log to which a message was added again, in which the search of the deletion finds another message |
| `MsgLog.MsgMgr.DeleteMsg` | comms_champion/lib/src/MsgMgrImpl.cpp:140-165 | exactly the given message is removed; the others keep their order, and numbers still increase strictly |
| `MsgLog.MsgMgr.DeleteAllMsgs` | comms_champion/lib/src/MsgMgrImpl.h:48-51 | the log is empty, and the numbering goes on |
| `MsgLog.MsgMgr.UpdateInternalId` | comms_champion/lib/src/MsgMgrImpl.cpp:408-413 | the message gets the next number |
| `MsgLog.MsgMgr.Append` | comms_champion/lib/src/MsgMgrImpl.cpp:180-188 | the message is put at the end with the next number; the numbers increase exactly if no object is in the log twice |
| `MsgLog.ExistingAt` | comms_champion/lib/src/MsgMgrImpl.cpp:173-176 | of a list with null pointers, exactly the messages that exist are logged, each behind those before it |
| `MsgLog.MsgMgr.SendMsgs` | comms_champion/lib/src/MsgMgrImpl.cpp:167-227 | all existing messages are logged in order as sent, written or not, if there is a socket and a protocol, and nothing is touched otherwise; each gets the next number when it is logged, and the numbers increase exactly if no object is in the log twice |
| `MsgLog.TypedAt` | comms_champion/lib/src/MsgMgrImpl.cpp:241-246 | only messages with a type are logged, and each behind those before it |
| `MsgLog.MsgMgr.AddMsgs` | comms_champion/lib/src/MsgMgrImpl.cpp:229-259 | the messages that have a type are logged in order, and the others are not touched; only a missing timestamp is replaced; each gets the next number when it is logged, and the numbers increase exactly if no object is in the log twice |
| `MsgLog.MsgMgr.SocketDataReceived` | comms_champion/lib/src/MsgMgrImpl.cpp:348-405 | all messages are numbered and then logged in order as received, if receiving is enabled and there are a protocol and data, and nothing is touched otherwise; each gets the next number when it is logged, and the numbers increase exactly if no object is in the log twice |

## Left out

- Qt, JSON documents, files, property maps, plugins, configuration and widgets: input, output and user interface. A property that is missing in a file reads as zero, as `PropBase::getFrom` does; the repeat count of a message object is the value read with its default of one.
- The real timer: its jitter, and the cast of a delay to `int`. The clock is ideal, and delays are natural numbers; that no subtraction underflows is proved.
- Callbacks that call back into the manager, and callbacks that are not set.
- Display units, comments and extra information of messages: copied along, without influence on what is modelled.
- Sockets, and the filter chains between the log and the socket, whose data is not modelled: `MsgLog` starts from the messages that the protocol read, and logs a sent message whether or not it was written.
- MsgLog.MsgMgr.DeleteMsg: requires increasing numbers and a message of the log, as the assertions of the source do.
- MsgLog.MsgMgr.AddMsgs: null pointers in the list, against which the source asserts, are not modelled; wrap-around of the message number is excluded by the source.
- MsgLog.MsgMgr.SocketDataReceived: the timestamp of the data is taken as readable throughout; the source reads it through a pointer that it has passed to `std::move` before (`comms_champion/lib/src/MsgMgrImpl.cpp`, lines 354 and 393), and whether this empties the pointer depends on the list type of Qt.
- Protocol layers, fields, message construction and decoding: the frame and the protocol are functions with the stated properties. The search of `createMsgObjectFrom` over the types of one ID is part of what the protocol can create.
- Dispatch to message classes with dynamic IDs, through the message's own `dispatch()`, and of objects whose real type is known at compile time.
- Tuples of so many types that eleven times their number is no `std::size_t`; message IDs beyond 64 bits, and conversions between different ID types.
- HexData.StripData: keeps ASCII digits only; the source also keeps digits of other scripts and then asserts against them, and `HexData.KeptExactly` says when this makes no difference.
- HexData.ParseMsgData: likewise.
- HexData.PrintParsed: likewise.
- StaticBinSearch.StrongSearchFinds: the strong searches, like all dispatch functions, are recursion on values; template instantiation and compile-time cost are not modelled.
