# A verified model of the stateful parts of the location stack

The location stack serves many clients over a few shared, long-lived objects: sockets
that carry long messages in pieces, a heap of timers, the AGPS data-call machine, the
observer that hands system data items to subscribers, the cache behind it, and the
numbers that adapters keep between events. Each of these has a simple purpose that its
code reaches by a less obvious way. The modules here model that code and prove that the
purpose is met, on every input and in every run, or say exactly when it is not.

Code that changes objects in place is modelled by classes with the same fields, whose
methods keep the source's branches, loops and order of steps. Each such method is proved
to compute a function of the old state; what the code is for is then proved about these
functions, over whole runs. Callbacks, framework calls and datagrams are recorded in
ghost traces, in order.

| Component | What its state is | What is proved of it |
|---|---|---|
| `RankedTree`, `LocHeap` | Values and linked nodes of the timer heap | Any run acts as a priority multiset; the rank-pruned removal finds an object exactly when it is there; a detached node is a childless leaf; the self-check is exact; push-only heaps are balanced |
| `IpcFraming`, `LocIpc`, `IpcDelivery`, `IpcOrder` | Fragment header, send loop, reassembly table | However the datagrams of any number of senders interleave, the messages that the listener is given merge the senders' lists of messages: each once, byte for byte, each sender's in order; and nothing is left behind |
| `AgpsRuns`, `AgpsHandles`, `AgpsOrder`, `Agps` | AGPS machine with its subscriber list, and the manager | In every run each subscription is closed by one callback or a modem restart, GRANTED is told exactly when it is true, and data-call requests and releases never get out of turn. Handle by handle, what every event tells whom is given exactly, with the whole life of a subscriber that waits for the close |
| `LocUnorderedSetMap`, `SubscriptionIndex`, `SubscriptionCalls`, `SystemStatusOsObserver` | Two set-maps, item cache, framework subscription | The calls on the framework are exactly the change of the set of items that have clients, and over every run an item is subscribed to or its data requested as its first subscription asked; the two maps are inverse exactly as long as no subscriber updates its subscription; as long as that is so, every client was last told each cached item it wants at its cached value; in any other state the exact condition for being told is given, and a run in which a client is not |
| `ReportHistory` | Bounded history behind every report type | It is the tail of the unbounded change log, and truncation never changes a verdict; ignored items leave no trace, and the newest entry was reported when the last other input was |
| `NetworkTable`, `SystemStatusNetworkInfo`, `NetworkCaches`, `NetworkRecords` | Network handle table, its collation and its two caches | The table is a bounded map from handle to type over every stream, if and only if the first item's own table fits it; both caches always hold the same table, and the same type mask exactly under a condition on the items; which types, APN and repeats are recorded is given exactly |
| `NmeaTokenizer` | Debug NMEA field tokenizer | Joining and cutting are inverse, and every text gives exactly its pieces or none |
| `RealtimeEstimator` | Boot-time estimate of a fix | Every estimate equals one that never looks at UTC, and is measured from the sixth trusted fix on schedule |
| `TripDistance`, `TripRuns`, `TripsOnTime`, `TripJourneys`, `TripIntervals`, `TripTable`, `BatchingAdapter` | Trip distances on one restartable odometer | The sweep is exact, and so is the condition under which a decision asks the modem for too much. Over whole runs with a modem that reports at the distance asked for: it is on time throughout if and only if every start and stop fits; every trip has what was travelled since it joined if and only if the starts that restart the modem find the others just read; and then trips end at exactly their distance; the modem runs densely enough for all throughout if and only if every decision is safe for interval zero. Trip by trip, what every event makes of a session is given exactly. Runs that reach each failure |
| `OsnmaPath` | Merkle siblings of an OSNMA public key | The nodes found for a leaf rebuild the root, for every height, and without hash collisions only they do |

The header length field is printed and read as in sections 7.19.6.1 and 7.19.6.2 of
ISO C99. The use of the Merkle path follows the verification of DSM-PKR public keys in
the Galileo OSNMA SIS ICD.

## Where the code and its documentation differ

The model follows the code.

- `LocUnorderedSetMap::update` is described as returning the values that are no longer in
  the entry (utils/LocUnorderedSetMap.h:187-189, core/SystemStatusOsObserver.cpp:156-162);
  it returns those that stay. `SubscriptionIndex.InverseNeedsGoneItems` shows which items
  would have to be returned, `UpdateLosesSubscriber` is a concrete run that goes wrong,
  and `EveryRun` says exactly which runs do not. The same function erases the element its
  loop stands on (utils/LocUnorderedSetMap.h:67-75); the model visits each element once.
- `LocHeap::remove` is described as removing a node that ranks the same
  (utils/LocHeap.h:93-97); it removes the very object it is given. And a parent does not
  always rank higher than its children (utils/LocHeap.h:63-64): it may rank equally.
- `NetworkInfoDataItem::copyFrom` stops early when everything is the same but for the APN
  (core/data-items/DataItemConcreteTypes.cpp:660-671), and puts the item's own type bit in
  place of an empty mask (line 674). Hence the conditions in `NetworkCaches.CopiedFields`
  and `MasksAgreeExactly`.
- A trip restart for a longer or shorter interval alone asks for the old full distance
  again, and a decision at a queried distance uses what was left at the last report
  (batching/BatchingAdapter.cpp:1011-1065): `TripDistance.QueriedDecisionIsLateExactly`.
  The flags that the ongoing trip is gone are never lowered again
  (batching/BatchingAdapter.cpp:738-746, `TripTable.EveryRunFlags`): a later stop then
  always picks that remainder.
- The restart of a joining trip is said to record the total accumulated distance of each
  session (batching/BatchingAdapter.cpp:895-904); it records the one of the last reading
  and forgets what was travelled since. `TripJourneys.EveryRunConservesExactly` says when
  that matters. In the runs of `JoinLosesDistance` a trip travels its whole distance and is
  not reported, and by `TripRuns.ModemStaysIdle` the modem is not asked again.
- The first network item is recorded with the table that its constructor made, even if it
  is a disconnection, and `collate` compares an item's raw type with the type in the slots
  (core/SystemStatus.h:535-536): `NetworkTable.NewestTableIsNetworks`. In the run of
  `MasksCanDisagree` the table therefore still lists the network that is gone.

## Model

| member | source | states |
|---|---|---|
| `RankedTree.TopIsMaximum` | utils/LocHeap.h:82-86 | In an ordered heap nothing outranks the top |
| `RankedTree.PushAddsOne` | utils/LocHeap.cpp:115-132 | A push adds one occurrence of the datum and one node |
| `RankedTree.PushKeepsHeap` | utils/LocHeap.cpp:109-132 | A push keeps order and every cached size, and the new top is the higher of old top and datum |
| `RankedTree.PopTakesTop` | utils/LocHeap.cpp:142-172 | Popping takes out one occurrence of the top and nothing else |
| `RankedTree.PopKeepsHeap` | utils/LocHeap.cpp:134-172 | Popping keeps order and every cached size |
| `RankedTree.PopPromotes` | utils/LocHeap.cpp:154-166 | The left child's datum comes to the top if it outranks the right one's or is the only one, and of two that rank equally the right one's |
| `RankedTree.RemoveIsComplete` | utils/LocHeap.cpp:174-201 | The search that skips subtrees by rank succeeds if and only if the object is in the heap |
| `RankedTree.RemoveTakesOne` | utils/LocHeap.cpp:178-201 | A successful removal takes out one occurrence and one node |
| `RankedTree.RemoveKeepsHeap` | utils/LocHeap.cpp:178-201 | A removal keeps order and every cached size |
| `RankedTree.CheckNodesIsExact` | utils/LocHeap.cpp:203-228 | The self-check holds if and only if order and all sizes hold |
| `RankedTree.PushTakesSmallestSubtree` | utils/LocHeap.h:63-67 | From any heap a push changes one subtree only, one with no more nodes than the other |
| `RankedTree.PushKeepsBalance` | utils/LocHeap.cpp:109-132 | A push keeps left and right within one node of each other, left first, at every node |
| `RankedTree.BalancedIsLow` | utils/LocHeap.h:63-67 | A balanced tree of height n has at least 2^(n-1) nodes |
| `RankedTree.PushOnlyHeaps` | utils/LocHeap.cpp:115-132 | Heaps built by pushes alone are balanced at every node, hence of logarithmic height |
| `RankedTree.RunRefinesBag` | utils/LocHeap.cpp:236-275 | After any run of pushes, pops and removals the next operation acts as on a priority multiset |
| `RankedTree.DrainIsPermutation` | utils/LocHeap.cpp:253-262 | Popping until empty yields every object as often as it was in the heap |
| `RankedTree.DrainSorts` | utils/LocHeap.cpp:253-262 | and yields them by rank, highest first |
| `LocHeap.LocHeapNode.Push` | utils/LocHeap.cpp:115-132 | The linked nodes compute the push; exactly the given node is hung in |
| `LocHeap.LocHeapNode.Pop` | utils/LocHeap.cpp:142-172 | The linked nodes compute the pop; the node cut off is a childless leaf that holds the old top and that no live node refers to |
| `LocHeap.LocHeapNode.Remove` | utils/LocHeap.cpp:178-201 | The linked nodes compute the removal; nothing changes on failure, and a detached node is such a leaf |
| `LocHeap.LocHeapNode.CheckNodes` | utils/LocHeap.cpp:205-228 | Returns true if and only if order and all sizes hold in the linked nodes |
| `LocHeap.LocHeap.Push` | utils/LocHeap.cpp:236-243 | The heap stays valid and gains one occurrence |
| `LocHeap.LocHeap.Peek` | utils/LocHeap.cpp:245-251 | Returns a maximum of the contents, or nothing when empty |
| `LocHeap.LocHeap.Pop` | utils/LocHeap.cpp:253-262 | Removes and returns a maximum of the contents, or nothing when empty |
| `LocHeap.LocHeap.Remove` | utils/LocHeap.cpp:264-275 | Removes one occurrence and returns it, exactly when the object is in the heap |
| `LocHeap.LocHeap.CheckTree` | utils/LocHeap.cpp:280-282 | True if and only if the whole tree is a heap |
| `IpcFraming.LengthRoundTrip` | utils/LocIpc.cpp:115 | The length printed with eight hexadecimal digits is scanned back unchanged, for every 32-bit length |
| `IpcFraming.ScanDigits` | utils/LocIpc.cpp:155-156 | Scanning a zero-padded number of any width continues with its value |
| `IpcFraming.CaseDoesNotMatter` | utils/LocIpc.cpp:155-156 | Digits are scanned alike in upper and lower case |
| `IpcFraming.FragmentsPartition` | utils/LocIpc.cpp:116-121 | The chunks concatenate to what is left, none is empty or too long, all have the header, and there are ceil(rest/max) of them |
| `IpcFraming.LongMessagesNeedTwo` | utils/LocIpc.cpp:105-121 | A message longer than one datagram goes out as at least two fragments, which skipping the completion test on the first relies on |
| `IpcFraming.LanesAreIndependent` | utils/LocIpc.cpp:151-172 | However fragments interleave, each header sees only its own stream |
| `IpcFraming.PlainExactly` | utils/LocIpc.cpp:142-149 | A datagram that is not empty is handed on as it is, and nothing else happens, if and only if the abort text with its final zero does not start it and it is not the mark, any 16 bytes, a dollar, any 8 bytes, a dollar and a payload; the abort text changes nothing |
| `IpcFraming.EntryCountsDown` | utils/LocIpc.cpp:151-165 | Whatever a header's fragments are, its entry counts down the announced length in 32 bits, and delivers nothing while that is not zero |
| `IpcFraming.EntryIsHandedOver` | utils/LocIpc.cpp:161-171 | and the fragment that makes it zero delivers one message of that length and closes the entry |
| `IpcFraming.FirstFragment` | utils/LocIpc.cpp:154-160 | A first fragment opens the right entry if and only if the bytes that remain can be counted in an int32_t |
| `IpcFraming.NextFragment` | utils/LocIpc.cpp:161-165 | A later fragment goes to its place and is counted off |
| `IpcFraming.LaneFinishes` | utils/LocIpc.cpp:161-171 | From the second fragment on the entry stays until the last one, which delivers the message and clears it |
| `IpcFraming.LaneTakesMessage` | utils/LocIpc.cpp:151-172 | The first j fragments of a message leave an entry and deliver nothing; all of them deliver it once and leave nothing |
| `IpcFraming.LaneTakesAll` | utils/LocIpc.cpp:151-172 | Message after message under one header is delivered, each once and in order |
| `IpcFraming.Reassembly` | utils/LocIpc.cpp:128-180 | In any arrival order that keeps one header's fragments in order, exactly the completed messages have been delivered under it, byte for byte, and its entry exists exactly while one is unfinished |
| `IpcFraming.DatagramsBelong` | utils/LocIpc.cpp:143-151 | Every fragment a sender makes is classified as one and arrives under its own header |
| `IpcFraming.ShortMessages` | utils/LocIpc.cpp:142-149 | A message that fits one datagram is delivered unchanged if and only if it is not empty and has neither of these two forms |
| `IpcDelivery.HeadersDiffer` | utils/LocIpc.cpp:83-115 | Two headers are the same exactly when sender and length are |
| `IpcDelivery.LongMessagesArrive` | utils/LocIpc.cpp:102-180 | For any interleaving of the datagrams of senders with distinct ids and any datagram sizes, exactly a sender's fragmented messages of a length are delivered under its header, once each, in order and byte for byte, and their entry is gone |
| `IpcDelivery.NothingIsLeft` | utils/LocIpc.cpp:151-172 | and the reassembly table is empty |
| `IpcDelivery.ShortMessagesArrive` | utils/LocIpc.cpp:142-149 | and the messages that fit one datagram, of any but these two forms, are delivered as they are, once each, in a merge of the senders' orders |
| `IpcOrder.StepFits` | utils/LocIpc.cpp:142-172 | The next datagram of any sender delivers its message exactly if it is the last of it, and leaves the table with just the entries of the messages that are part of the way |
| `IpcOrder.DeliveredInOrder` | utils/LocIpc.cpp:128-180 | From any such state, what is delivered from now on merges what the senders have not had delivered yet |
| `IpcOrder.EveryMessageInOrder` | utils/LocIpc.cpp:102-180 | End to end, for any interleaving: all messages that the listener is given, long and short, in the order in which it is given them, merge the senders' lists of messages, and the table is empty at the end |
| `LocIpc.Sock.SendTo` | utils/LocIpc.cpp:102-127 | Puts the message's datagrams on the wire until one is refused; returns the length exactly when all are out |
| `LocIpc.Sock.SendFragments` | utils/LocIpc.cpp:108-123 | The loop over the reused buffer sends exactly the specified fragments and ends |
| `LocIpc.Sock.RecvFrom` | utils/LocIpc.cpp:128-180 | The abort text is dropped with -100, a datagram of neither form handed on as it is, any other taken as the delivery theorems say; a failed receive forgets unfinished messages |
| `LocIpc.ReassemblyTable.Gather` | utils/LocIpc.cpp:151-172 | The in-place update of the shared table, with its counter and buffer, makes the step that the delivery theorems are about |
| `AgpsRuns.CallbacksHeard` | gnss/Agps.cpp:322-355 | A round of callbacks is heard by exactly those it is meant for, once each |
| `AgpsRuns.WithoutStatus` | gnss/Agps.cpp:322-355 | Deleting the selected subscribers unlists exactly them |
| `AgpsRuns.DeactivateStatus` | gnss/Agps.cpp:130-132 | Marking one subscriber inactive changes no other |
| `AgpsRuns.StepKeepsInv` | gnss/Agps.cpp:80-290 | Every event keeps the structural invariant, the agreement with the framework's connection and the agreement with what each handle has been told |
| `AgpsRuns.RunKeepsInv` | gnss/Agps.cpp:80-290 | So does every sequence of events |
| `AgpsRuns.EveryRunIsSound` | gnss/Agps.cpp:80-178 | In every run: RELEASED iff nobody is listed, PENDING and ACQUIRED have an active subscriber, RELEASING an inactive one, handles are distinct, and no data-call request or release is out of turn |
| `AgpsRuns.EveryRunConserves` | gnss/Agps.cpp:322-392 | In every run, for every handle: callbacks come only while subscribed, each ended subscription had exactly one closing callback or a modem restart, the open ones are the listed ones, and an active one has been told GRANTED exactly when the machine is ACQUIRED |
| `AgpsRuns.ReleasingOutlivesLeaving` | gnss/Agps.cpp:153-173 | While releasing, a leaving subscriber never empties the list |
| `AgpsRuns.WaiterIsKept` | gnss/Agps.cpp:223-239 | RELEASED or DENIED in RELEASING keeps an active subscriber and requests the connection again |
| `AgpsRuns.WaiterHears` | gnss/Agps.cpp:180-201 | GRANTED or DENIED in PENDING answers every active subscriber |
| `AgpsRuns.WaiterIsAnswered` | gnss/Agps.cpp:203-290 | Over any run: a subscriber that arrives while releasing outlives the release, hears nothing before, and is answered by the next GRANTED or DENIED |
| `AgpsHandles.EveryEventIsExact` | gnss/Agps.cpp:80-290 | After every run, for every event and every handle: exactly which callbacks the handle gets, whether it stays listed and active, the machine's next state, and whether the connection is requested or released, given by tables over the handle's own status |
| `AgpsHandles.WaiterIsReleased` | gnss/Agps.cpp:119-148 | In every run: an active subscriber that waits for the close and is released is told nothing and stays listed as inactive; unless others are active the machine goes to RELEASING and the connection is released |
| `AgpsHandles.OtherIsReleased` | gnss/Agps.cpp:133-138 | One that does not wait is told the close and unlisted in that very step |
| `AgpsHandles.WaiterHearsNothing` | gnss/Agps.cpp:203-290 | Over any events that do not end its wait, an inactive subscriber is told nothing and stays listed |
| `AgpsHandles.EveryWaiterIsClosed` | gnss/Agps.cpp:116-290 | The whole life of a wait, over every run: released, told nothing, until an event ends the wait, which makes exactly one closing callback, or none if it is a modem restart, and unlists it |
| `AgpsOrder.EveryRunIsInOrder` | gnss/Agps.cpp:404-423 | In every run the subscribers are listed in the order of the requests that opened their episodes |
| `AgpsOrder.RoundInOrder` | gnss/Agps.cpp:322-355 | and a round calls back the selected ones in that order |
| `Agps.AgpsSubscriber.constructor` | gnss/Agps.h:113-119 | A subscriber holds what it is given |
| `Agps.AgpsSubscriber.Clone` | gnss/Agps.h:125-127 | A clone is a new object with the same value |
| `Agps.AgpsStateMachine.constructor` | gnss/Agps.h:166-171 | A machine starts RELEASED with nobody listed |
| `Agps.AgpsStateMachine.AnyActiveSubscribers` | gnss/Agps.cpp:444-454 | True exactly when some listed subscriber is active |
| `Agps.AgpsStateMachine.GetSubscriber` | gnss/Agps.cpp:477-490 | Finds the listed subscriber of a handle, or none exactly when it is not listed |
| `Agps.AgpsStateMachine.AddSubscriber` | gnss/Agps.cpp:404-423 | Appends a clone unless the handle is listed |
| `Agps.AgpsStateMachine.DeleteSubscriber` | gnss/Agps.cpp:425-442 | Erases every entry with the handle and no other |
| `Agps.AgpsStateMachine.NotifyEventToSubscriber` | gnss/Agps.cpp:357-392 | One callback, and the entry erased if asked for |
| `Agps.AgpsStateMachine.NotifyAllSubscribers` | gnss/Agps.cpp:322-355 | One callback per selected subscriber in list order, and exactly these erased if asked for |
| `Agps.AgpsStateMachine.ProcessAgpsEventSubscribe` | gnss/Agps.cpp:80-114 | Lists the subscriber; asks for a connection from RELEASED only, and tells GRANTED at once in ACQUIRED only |
| `Agps.AgpsStateMachine.ProcessAgpsEventUnsubscribe` | gnss/Agps.cpp:116-178 | The subscriber leaves or waits, and the connection is released, as `EveryEventIsExact` says |
| `Agps.AgpsStateMachine.ProcessAgpsEventGranted` | gnss/Agps.cpp:180-201 | From PENDING only, every active subscriber is told and nobody is deleted |
| `Agps.AgpsStateMachine.ProcessAgpsEventReleased` | gnss/Agps.cpp:203-248 | Closes everybody in ACQUIRED and the inactive in RELEASING, and asks for the connection again when somebody active is left |
| `Agps.AgpsStateMachine.ProcessAgpsEventDenied` | gnss/Agps.cpp:250-290 | Refuses everybody in PENDING, and ends a release as RELEASED does |
| `Agps.AgpsStateMachine.RequestOrReleaseDataConn` | gnss/Agps.cpp:296-320 | One request or release to the framework |
| `Agps.AgpsStateMachine.DropAllSubscribers` | gnss/Agps.cpp:507-521 | Nobody is left, nobody is told, and the connection is released |
| `Agps.AgpsStateMachine.Take` | gnss/Agps.cpp:612-616 | From any reachable state the objects make exactly the step that the theorems on runs are about, and are in a reachable state again |
| `Agps.AgpsManager.RequestATL` | gnss/Agps.cpp:556-617 | Of the types INVALID, SUPL and SUPL_ES the AGNSS machine takes the request, of all others the Internet machine, or the manager refuses it itself; the other machine does not move |
| `Agps.AgpsManager.ReleaseATL` | gnss/Agps.cpp:619-645 | The machine that lists the handle, the AGNSS one first, takes the release; nothing else moves |
| `Agps.AgpsManager.ReportAtl` | gnss/Agps.cpp:556-688 | The answer goes to the machine of the type in the same way; the other does not move |
| `Agps.AgpsManager.HandleModemSSR` | gnss/Agps.cpp:690-701 | Every machine drops its subscribers |
| `LocUnorderedSetMap.SetMap.Add` | utils/LocUnorderedSetMap.h:156-167 | Adds values to an entry and tells whether it is a new one |
| `LocUnorderedSetMap.SetMap.AddToKeys` | utils/LocUnorderedSetMap.h:178-185 | Adds values to all given entries and returns the new keys |
| `LocUnorderedSetMap.SetMap.TrimEntry` | utils/LocUnorderedSetMap.h:52-59 | Takes values out of one entry, drops it when empty, and returns what went |
| `LocUnorderedSetMap.SetMap.TrimOrRemove` | utils/LocUnorderedSetMap.h:141-152 | Does so for all given entries and returns keys and values that went |
| `LocUnorderedSetMap.SetMap.Update` | utils/LocUnorderedSetMap.h:190-200 | Replaces an entry; returns the values that stay and leaves the new ones |
| `LocUnorderedSetMap.RemoveAndReturnInterset` | utils/LocUnorderedSetMap.h:65-78 | Returns the common values and takes them out of both sets |
| `LocUnorderedSetMap.TrimKeys` | utils/LocUnorderedSetMap.h:132-152 | Trimming removes exactly the keys it reports and never leaves an empty entry |
| `LocUnorderedSetMap.AddOneMore` | utils/LocUnorderedSetMap.h:178-185 | Adding under a set of keys is adding under one key after the other, with the new keys counted once |
| `SubscriptionIndex.ClientSideFollows` | core/SystemStatusOsObserver.cpp:64-359 | Every message changes who subscribes to what, on the client side, as the message says |
| `SubscriptionIndex.ItemSideFollows` | core/SystemStatusOsObserver.cpp:64-359 | Every message but an update does so on the item side too |
| `SubscriptionIndex.InverseNeedsGoneItems` | core/SystemStatusOsObserver.cpp:151-169 | An update keeps the maps inverse if and only if the client is taken off just those of its items that it no longer wants |
| `SubscriptionIndex.InverseKeptUnlessUpdated` | core/SystemStatusOsObserver.cpp:64-359 | Every message keeps the maps inverse if and only if it is not an update for a client with a subscription |
| `SubscriptionIndex.UpdateLosesSubscriber` | core/SystemStatusOsObserver.cpp:147-189 | A run in which a client that repeats its subscription is forgotten and its item unsubscribed |
| `SubscriptionIndex.EntriesStayFull` | core/SystemStatusOsObserver.cpp:94-280 | No message leaves an empty entry in either map |
| `SubscriptionIndex.AnnouncesKept` | core/SystemStatusOsObserver.cpp:71-280 | Every message keeps what is announced to the framework equal to the items that have clients |
| `SubscriptionIndex.EveryRun` | core/SystemStatusOsObserver.cpp:64-359 | In every run of messages, notifications among them, entries are never empty and the announced items are those with clients; the maps are inverse throughout if and only if no subscriber is ever updated |
| `SubscriptionIndex.ChangedAreCached` | core/SystemStatusOsObserver.cpp:454-482 | After a notify the cache has exactly the old items and the accepted ones, and no other item has changed |
| `SubscriptionIndex.NewestIsCached` | core/SystemStatusOsObserver.cpp:454-482 | Where copying copies, an accepted item is cached at its last value |
| `SubscriptionIndex.RoundIsExact` | core/SystemStatusOsObserver.cpp:297-330 | In every state a round gives a client, in one call, exactly the changed items that it subscribes to at their cached values, or nothing; it gets what is due if and only if that is nothing or the item side lists it for some changed item |
| `SubscriptionIndex.UpdatedSubscriberMissesNews` | core/SystemStatusOsObserver.cpp:147-189 | A run in which a client that repeated its subscription is not told of a change of its item |
| `SubscriptionIndex.NotifyKeepsUpToDateExactly` | core/SystemStatusOsObserver.cpp:297-330 | A client that knew an item's value knows it after a notify if and only if the item did not change, the item side lists the client for some changed item, or the value is the one it was last told |
| `SubscriptionIndex.StepKeepsUpToDate` | core/SystemStatusOsObserver.cpp:64-359 | No message makes a client miss a value while its two entries for the item agree |
| `SubscriptionIndex.EveryRunKeepsClientsUpToDate` | core/SystemStatusOsObserver.cpp:64-359 | In every run without an update for a subscriber each client was last told each cached item that it wants at the value cached now |
| `SubscriptionCalls.CallsAreExact` | core/SystemStatusOsObserver.cpp:64-280 | In every state: a new object is asked to subscribe to and to send the data of all items that have clients; otherwise the calls are exactly a request for data or a subscription for the items that get a first client, and a withdrawal of those that lose the last |
| `SubscriptionCalls.EveryRunAsks` | core/SystemStatusOsObserver.cpp:71-123 | Over every run: the items with clients when the object is set have been asked for both ways; an item that gets its first client later has had its data requested if its subscription asked for that, and has been subscribed to otherwise; and no other item has |
| `SubscriptionCalls.ItemSideExactly` | core/SystemStatusOsObserver.cpp:94-280 | What every message makes of the item side in any state, the wrong turn of an update included |
| `SubscriptionCalls.TellsExactly` | core/SystemStatusOsObserver.cpp:94-189 | In every state a message other than a notify sends its client, in one call, the cached ones of the items that it asks for anew, and sends nobody else anything |
| `SubscriptionCalls.EachItemIsCached` | core/SystemStatusOsObserver.cpp:454-482 | Each item is cached, by itself, as what copying makes of its accepted values one after the other |
| `SystemStatusOsObserver.Observer.ProcSetSubscriptionObj` | core/SystemStatusOsObserver.cpp:71-81 | A new subscription object gets the calls that `CallsAreExact` says |
| `SystemStatusOsObserver.Observer.ProcSubscribe` | core/SystemStatusOsObserver.cpp:105-123 | Enters the pair into both maps, sends what is cached, and announces just the items that had no client |
| `SystemStatusOsObserver.Observer.ProcUpdateSubscription` | core/SystemStatusOsObserver.cpp:147-191 | Replaces the client's items; on the item side enters the new ones and takes the client off the kept ones, and announces both effects |
| `SystemStatusOsObserver.Observer.ProcUnsubscribe` | core/SystemStatusOsObserver.cpp:205-241 | Takes the pair out of both maps and withdraws just the items that have no client left |
| `SystemStatusOsObserver.Observer.ProcUnsubscribeAll` | core/SystemStatusOsObserver.cpp:243-280 | Forgets the client in both maps and withdraws just the items that have no client left |
| `SystemStatusOsObserver.Observer.Proc` | core/SystemStatusOsObserver.cpp:64-359 | Handles one queued message, with the effects that the theorems on runs are about; requests without items are dropped |
| `SystemStatusOsObserver.Observer.SendCachedDataItems` | core/SystemStatusOsObserver.cpp:426-452 | Sends the cached ones among the items in one call, or nothing when there are none |
| `SystemStatusOsObserver.Observer.UpdateCache` | core/SystemStatusOsObserver.cpp:454-482 | Takes over an item exactly when it was recorded |
| `SystemStatusOsObserver.Observer.AffectedClients` | core/SystemStatusOsObserver.cpp:307-314 | Collects the clients of the changed items |
| `SystemStatusOsObserver.Observer.ChangedItemsOf` | core/SystemStatusOsObserver.cpp:317-326 | Leaves of a client's items the changed ones |
| `SystemStatusOsObserver.Observer.ProcNotify` | core/SystemStatusOsObserver.cpp:297-330 | Updates the cache with all items and then makes one round of calls, each affected client once |
| `ReportHistory.Report.SetIteminReport` | core/SystemStatus.cpp:1477-1495 | Keeps the last five entries of the log after the item and returns whether it was a change |
| `ReportHistory.Report.SetDefaultIteminReport` | core/SystemStatus.cpp:1497-1504 | Keeps the last five entries after a default |
| `ReportHistory.HistoryIsTailOfLog` | core/SystemStatus.cpp:1477-1504 | For every stream of inputs the history is the tail of the unbounded change log, and its verdict on any next input is the log's |
| `ReportHistory.HistoryIsLastFive` | core/SystemStatus.cpp:1489-1494 | Entry by entry, the history has the newest five of that log, or all of it while there are fewer |
| `ReportHistory.ItemIsRecorded` | core/SystemStatus.cpp:1477-1495 | An ignored item does nothing; any other is recorded, merged with the newest entry if there is one, if and only if that makes a difference; otherwise it only renews the report time |
| `ReportHistory.LogIsOfHeeded` | core/SystemStatus.cpp:1480-1488 | Over every stream ignored items leave no trace, and the newest entry carries the report time of the last other input |
| `ReportHistory.LogCountsChanges` | core/SystemStatus.cpp:1477-1504 | and there is one entry for each change reported |
| `NetworkTable.ConnectRefines` | core/SystemStatus.h:509-525 | A connection inserts its handle exactly when it is new and there is room; valid handles stay a duplicate-free prefix |
| `NetworkTable.DisconnectRefines` | core/SystemStatus.h:526-558 | A disconnection removes exactly the matching handle and type; valid handles stay such a prefix |
| `NetworkTable.CollateRefines` | core/SystemStatus.h:495-568 | Collation acts on the table as on a bounded map from handle to type |
| `NetworkTable.NewestTableIsNetworks` | core/SystemStatus.cpp:1669-1680 | For a first item as it is constructed: the newest table stands for the bounded map of the whole stream, over every connect and disconnect sequence, if and only if that item has no handle or is connected and its slot has its own type |
| `NetworkTable.NewestTableFollows` | core/SystemStatus.cpp:1477-1495 | Over every stream, without condition, the newest table is well formed and stands for the bounded map that starts as the first item's own table |
| `NetworkTable.FirstItemIs` | core/data-items/DataItemConcreteTypes.h:317-332 | A constructed item's own table is the map after it if and only if that condition holds |
| `NetworkTable.FirstDisconnectionIsListed` | core/SystemStatus.cpp:1483-1490 | Every stream that starts with a disconnection lists its network as connected |
| `NetworkTable.RawTypeStaysListed` | core/SystemStatus.h:535-543 | A connection whose slot has another type than the item stays listed after its disconnection |
| `SystemStatusNetworkInfo.NetworkInfoItem.Collate` | core/SystemStatus.h:495-568 | Rewriting table, mask and APN in place gives the merged item that the map theorems are about; nothing else of the item changes |
| `SystemStatusNetworkInfo.NetworkInfoItem.AddHandle` | core/SystemStatus.h:511-525 | The insertion loop, with its early exits, inserts as specified |
| `SystemStatusNetworkInfo.NetworkInfoItem.DropHandle` | core/SystemStatus.h:527-558 | The search and the swap with the last slot remove as specified and count the other handles of the type |
| `SystemStatusNetworkInfo.NetworkInfoItem.EqualsPeer` | core/SystemStatus.h:484-494 | True exactly when mask, connected flag, table and APN are the same |
| `SystemStatusNetworkInfo.NetworkInfoItem.CopyFrom` | core/data-items/DataItemConcreteTypes.cpp:654-693 | The field-by-field copy gives the item that `CopiedFields` describes, or leaves all as it was |
| `NetworkCaches.CopiedFields` | core/data-items/DataItemConcreteTypes.cpp:654-693 | Copying always takes over the table; it takes over mask and APN exactly under the stated conditions |
| `NetworkCaches.TablesAlwaysAgree` | core/SystemStatusOsObserver.cpp:454-482 | In every run the observer's cached table is that of the newest recorded entry |
| `NetworkCaches.MasksAgreeExactly` | core/SystemStatus.cpp:1669-1680 | By what can be seen before an item: if it will be recorded, the type masks agree after it if and only if it does not lose the mask; if not, they agree as before |
| `NetworkCaches.EveryRunOfMasks` | core/SystemStatusOsObserver.cpp:454-482 | After every stream the two masks agree if and only if the last item that was recorded did not lose the mask |
| `NetworkCaches.MasksCanDisagree` | core/SystemStatus.h:560-564 | A run of a connection and its disconnection after which they do not |
| `NetworkRecords.TypesAreExact` | core/SystemStatus.h:509-566 | A connection keeps all recorded type bits and adds its own; a disconnection takes its own off the recorded ones if no other network of its type is connected, and otherwise, or without bits, its own mask is recorded |
| `NetworkRecords.ApnIsExact` | core/SystemStatus.h:505-508 | A recorded APN goes over to an item of another type than mobile; nothing else of the item changes |
| `NetworkRecords.AtMostTen` | core/SystemStatus.h:511-525 | At most ten networks are listed, and with ten no further one is |
| `NetworkRecords.RecordedExactly` | core/SystemStatus.h:484-494 | The item is a change if and only if, merged, it differs from the newest entry in mask, connected flag, table or APN |
| `NetworkRecords.RepeatIsNotRecorded` | core/SystemStatus.cpp:1477-1495 | The same item offered again is never a change |
| `NetworkRecords.RawTypesRoundTrip` | core/data-items/DataItemConcreteTypes.h:343-376 | The nine known types and their raw values are told apart, and every other raw value is unknown |
| `NetworkRecords.CopyIsExact` | core/data-items/DataItemConcreteTypes.cpp:654-693 | Copying takes over every field, the type by what it stands for and an empty mask as the type's bit, unless only the APN is new |
| `NmeaTokenizer.Tokenize` | core/SystemStatus.cpp:63-91 | The constructor's loop ends and yields the fields that the round trip is about: none for a text that fails the gate or has no star |
| `NmeaTokenizer.CutLosesNothing` | core/SystemStatus.cpp:79-90 | The fields, each with its comma, and the rest make up the text |
| `NmeaTokenizer.CutLeavesNoComma` | core/SystemStatus.cpp:79-90 | No field contains a comma, nor does the rest |
| `NmeaTokenizer.SentenceRoundTrip` | core/SystemStatus.cpp:70-90 | Tokenizing fields joined by commas, a star and a checksum text gives back exactly the fields |
| `NmeaTokenizer.TokenizedSentence` | core/SystemStatus.cpp:63-91 | So the parser gives exactly the fields of every such sentence of 6 to 4096 characters that starts with $PQW, and none for any other |
| `NmeaTokenizer.FieldsOfAnyText` | core/SystemStatus.cpp:63-91 | Any text that passes this gate (utils/loc_nmea.h:92-98) and has a star gives the pieces that, with their commas and a rest, make it up again once its first star is a comma; any other gives none |
| `RealtimeEstimator.Estimator.GetElapsedRealtimeEstimateNanos` | core/LocApiBase.cpp:994-1044 | The object's fields and result after a call are those of the step that `EstimateIsIdeal` is about; a failed clock reading returns -1 and changes nothing |
| `RealtimeEstimator.Estimator.DoReset` | core/LocApiBase.cpp:1046-1054 | The object is as new |
| `RealtimeEstimator.RunTracks` | core/LocApiBase.cpp:996-1012 | In every run the clock difference telescopes to one that depends on the anchor fix alone |
| `RealtimeEstimator.EstimateIsIdeal` | core/LocApiBase.cpp:994-1044 | After every run each trusted fix from the sixth in a row on gets anchor boot time, less initial travel time, plus data time since the anchor; every other call gets boot time less initial travel time |
| `RealtimeEstimator.UtcDoesNotMatter` | core/LocApiBase.cpp:1020-1032 | Runs that differ only in UTC readings give the same estimates |
| `RealtimeEstimator.EstimateIsFromSixth` | core/LocApiBase.cpp:1016-1044 | After every run: counting trusted fixes from the first since the reset, or from the last one that did not come its time between fixes after the one before, the first five get boot time less initial travel time, and from the sixth on the estimate is the sixth's plus the data time since |
| `RealtimeEstimator.OthersAreNotCounted` | core/LocApiBase.cpp:1016-1044 | Untrusted fixes get boot time less initial travel time, unread clocks give -1, and neither leaves a trace |
| `TripDistance.RebaseConserves` | batching/BatchingAdapter.cpp:1073-1088 | A restart at one reading followed by another gives the trip total of their sum without restart, modulo 2^32 |
| `TripDistance.RestartsConserve` | batching/BatchingAdapter.cpp:1073-1088 | So does any number of restarts |
| `TripDistance.SweepIsExact` | batching/BatchingAdapter.cpp:726-757 | A finished trip is reported; an unfinished one is kept with its new reading |
| `TripDistance.SweepLeavesUnfinished` | batching/BatchingAdapter.cpp:726-757 | Only finished trips are reported, and every trip kept has a positive distance to go |
| `TripDistance.SurvivorsAreSwept` | batching/BatchingAdapter.cpp:726-757 | What the sweep keeps has just been read and is unfinished |
| `TripDistance.SentinelMinIsExact` | batching/BatchingAdapter.cpp:1011-1026 | The loop that takes zero for nothing finds the minimum if and only if no value is zero or the last one is |
| `TripDistance.MinRemainingIsNearest` | batching/BatchingAdapter.cpp:1011-1026 | After a sweep the minimum found is where the next trip finishes, neither earlier nor later |
| `TripDistance.NotLateUpToNearest` | batching/BatchingAdapter.cpp:1032-1065 | A distance lets no completion pass the modem if and only if it is at most the least one that a trip has left |
| `TripDistance.DecisionIsLateExactly` | batching/BatchingAdapter.cpp:1032-1072 | Whatever was read when: after the decision no completion passes the modem if and only if it still has a distance to go and the one that its branch picks is at most the least one that a trip has left at that reading |
| `TripDistance.LeastLeftIsNearest` | batching/BatchingAdapter.cpp:726-733 | The least distance that a trip has left is where the next one finishes, neither earlier nor later |
| `TripDistance.QueriedDecisionIsLateExactly` | batching/BatchingAdapter.cpp:1011-1072 | At a queried reading, with each session last read at a reading of its own: in time if and only if the picked distance is at most what each one had left when it was read, less what was travelled since |
| `TripDistance.OldSweepIsLateExactly` | batching/BatchingAdapter.cpp:1011-1072 | When one sweep was the last to read them all, a new distance is in time if and only if nothing was travelled in between, an old one if and only if it is at most what the nearest trip had left less what was travelled |
| `TripDistance.SweptDecisionIsLateExactly` | batching/BatchingAdapter.cpp:1032-1072 | At the swept reading the decision is late if and only if only the interval forces the restart and the old distance exceeds the nearest one |
| `TripDistance.IntervalIsShortEnough` | batching/BatchingAdapter.cpp:1060-1065 | After the decision the interval is short enough for every session if and only if none wants zero, or the last one does, or the modem runs at zero already for a session that is still there |
| `TripDistance.AnyEndsIsExact` | batching/BatchingAdapter.cpp:734-742 | A dropped flag is raised exactly when a session with the ongoing distance, or interval, has finished |
| `TripRuns.ReportIsLateExactly` | batching/BatchingAdapter.cpp:720-764 | For every batch and reading that leaves trips, whether the plan made lets no completion pass: when none has ended, if and only if the modem is still going, and no further than the nearest trip; when one has, unless the interval alone restarts it for too much |
| `TripRuns.FullReportIsInTime` | batching/BatchingAdapter.cpp:720-764 | For every batch, a report at the distance asked for leaves the modem alone if and only if no trip has ended; if one has and others stay, the modem is restarted for exactly the nearest one |
| `TripRuns.SweepFlags` | batching/BatchingAdapter.cpp:733-747 | A sweep raises a flag if and only if a trip that ends had the ongoing distance, or the ongoing interval |
| `TripRuns.StopFlags` | batching/BatchingAdapter.cpp:952-962 | and so does a stop, by the trip that is stopped |
| `TripRuns.StoppedTripMakesLate` | batching/BatchingAdapter.cpp:945-972 | A run in which a stopped trip makes a queried decision late: 200 asked for, 180 left |
| `TripRuns.IntervalRestartIsLate` | batching/BatchingAdapter.cpp:1060-1065 | A run in which a stop restarts the modem for the interval alone and late: 100 asked for, 40 left |
| `TripRuns.ModemStaysIdle` | batching/BatchingAdapter.cpp:752-757 | Runs, one for each distance up to 100, in which the modem's distance is used up, no trip has ended, one has that distance to go, and the modem is not asked again |
| `TripRuns.ZeroIntervalIsLost` | batching/BatchingAdapter.cpp:1022-1025 | A run in which a session that wants interval zero gets 5000 |
| `TripsOnTime.AdvanceAll` | batching/BatchingAdapter.cpp:726-733 | As the modem goes on, the least distance that a trip has left shrinks with its own |
| `TripsOnTime.ReportEndsTrip` | batching/BatchingAdapter.cpp:726-751 | The report of a modem that is on time ends a trip |
| `TripsOnTime.ReportKeeps` | batching/BatchingAdapter.cpp:720-764 | and the modem is on time again after the restart |
| `TripsOnTime.StartFitsExactly` | batching/BatchingAdapter.cpp:843-915 | A start leaves the modem on time unless it restarts it for the interval alone while no session was last read with what the modem still has to go |
| `TripsOnTime.QuitFitsExactly` | batching/BatchingAdapter.cpp:945-1088 | A stop leaves it on time if and only if, branch by branch: no trip has gone further since its last reading than it was ahead of the least remainder; or the nearest trip has the whole old distance to go; or a trip that stays ends where the modem is going |
| `TripsOnTime.EveryRunOnTimeExactly` | batching/BatchingAdapter.cpp:700-1092 | In every run with a modem that reports at the distance asked for, its next report comes exactly when a trip is finished, throughout, if and only if every event of the run fits |
| `TripsOnTime.EveryReportEndsTrip` | batching/BatchingAdapter.cpp:720-764 | Then the modem never stays idle while there are trips: its next report ends one |
| `TripJourneys.StepLagExactly` | batching/BatchingAdapter.cpp:700-1092 | One event keeps, for every trip, the account of what was travelled since it joined, unless it is a start that restarts the modem and finds another session not just read |
| `TripJourneys.EveryRunConservesExactly` | batching/BatchingAdapter.cpp:700-1092 | In every run, at whatever readings: each session's distance is what was travelled since it joined, modulo 2^32, throughout, if and only if every start that restarts the modem finds the other sessions just read; so always when no start restarts it |
| `TripJourneys.ReportFindsJourneys` | batching/BatchingAdapter.cpp:726-757 | In such a run every trip that a report leaves is recorded with exactly what was travelled since it joined, modulo 2^32 |
| `TripJourneys.EveryTripEndsAtItsDistance` | batching/BatchingAdapter.cpp:726-757 | In a run that meets both conditions a report ends exactly the trips that have travelled their distance since they joined, modulo 2^32 |
| `TripJourneys.JoinLosesDistance` | batching/BatchingAdapter.cpp:895-904 | Runs in which a joining trip makes another one lose what it had travelled: it travels its 100 in all and is not reported |
| `TripIntervals.JoinInterval` | batching/BatchingAdapter.cpp:858-892 | However a trip joins, the query failing or not, the modem then runs at the shorter of its interval and the trip's |
| `TripIntervals.UnqueriedJoin` | batching/BatchingAdapter.cpp:867-874 | When the query fails the trip is not listed, and the modem is asked for the shorter of its whole distance and the trip's |
| `TripIntervals.StartInterval` | batching/BatchingAdapter.cpp:813-915 | In every run a start leaves the modem at that interval, and dense enough for all sessions if it was before |
| `TripIntervals.JoinCovers` | batching/BatchingAdapter.cpp:858-915 | So does a join whose query fails |
| `TripIntervals.EveryRunDenseExactly` | batching/BatchingAdapter.cpp:700-1092 | In every run, at whatever readings, the modem runs at most at the interval of every listed session throughout if and only if each decision on the way is safe for interval zero |
| `TripTable.EveryEventTripByTrip` | batching/BatchingAdapter.cpp:700-1092 | After every run, what every event makes of each session, by itself: joined, read, ended, stopped, or going on from the distance it has, or at a start from the one it was last read with |
| `TripTable.EveryRunFlags` | batching/BatchingAdapter.cpp:733-747 | In every run a flag is up if and only if some event before has raised it; nothing ever lowers one |
| `BatchingAdapter.Adapter.SweepCompletedTrips` | batching/BatchingAdapter.cpp:720-757 | The erasing loop keeps and reports what `SweepIsExact` describes, and raises the dropped flags as `AnyEndsIsExact` says |
| `BatchingAdapter.Adapter.Minima` | batching/BatchingAdapter.cpp:1011-1026 | The loop computes both sentinel minima |
| `BatchingAdapter.Adapter.RestartTripBatching` | batching/BatchingAdapter.cpp:987-1072 | Without trips the batch is stopped; otherwise the decision is the one that the theorems on lateness are about, and nothing changes yet |
| `BatchingAdapter.Adapter.ReportCompletedTrips` | batching/BatchingAdapter.cpp:700-764 | Sweeps, raises the flags, and decides at the same reading if a trip has ended |
| `BatchingAdapter.Adapter.OnRestarted` | batching/BatchingAdapter.cpp:1067-1088 | On success every session is rebased at the decision's reading; otherwise nothing changes |
| `BatchingAdapter.Adapter.StartFirstTrip` | batching/BatchingAdapter.cpp:813-842 | The first trip sets distance and interval, or is dropped when the modem refuses |
| `BatchingAdapter.Adapter.JoinTrip` | batching/BatchingAdapter.cpp:843-915 | A trip joins at the queried reading, or is not recorded when the query fails; a restart here resumes every session from its last distance |
| `BatchingAdapter.Adapter.StopTrip` | batching/BatchingAdapter.cpp:945-972 | A trip is taken out, the flags are raised if it had the ongoing distance or interval, and the rest is decided at a queried reading |
| `OsnmaPath.GetNodePath` | gnss/XmlFileParser.cpp:442-453 | The recursion ends and appends exactly the path |
| `OsnmaPath.PathIsSiblings` | gnss/XmlFileParser.cpp:442-453 | One entry per level; entry k is the other child of the parent of leaf/2^k |
| `OsnmaPath.FindNode` | gnss/XmlFileParser.cpp:455-463 | The search loop returns the node that `FoundIsFirst` and `NoneIsFound` describe |
| `OsnmaPath.FoundIsFirst` | gnss/XmlFileParser.cpp:455-463 | It is the first listed node of that place |
| `OsnmaPath.NoneIsFound` | gnss/XmlFileParser.cpp:455-463 | and the zero node when there is none |
| `OsnmaPath.FoundHashesFollowPath` | gnss/XmlFileParser.cpp:249-252 | Level by level the hashes looked up are those of the path's entries |
| `OsnmaPath.FoundHashesClimb` | gnss/XmlFileParser.cpp:442-463 | When the path's nodes are listed, folding them over a leaf gives its ancestor on any level |
| `OsnmaPath.PathRebuildsRoot` | gnss/XmlFileParser.cpp:442-463 | For every two-input hash, every height and every leaf they rebuild the root of the complete tree |
| `OsnmaPath.RootProvesLeaf` | gnss/XmlFileParser.cpp:442-463 | Without collisions the root comes out if and only if the leaf's and every sibling's hash are the right ones |
| `OsnmaPath.FillKey` | gnss/XmlFileParser.cpp:249-257 | One key gets the nodes of the four lowest levels of its path, if the path is that long |
| `OsnmaPath.FillPaths` | gnss/XmlFileParser.cpp:222-257 | Alert messages change nothing; a second key takes over the first one's tree; every other key gets its nodes; all reads are within the paths if and only if the root is on level four or higher and a second key is not key 0 |
| `OsnmaPath.StoredNodesClimbFourLevels` | gnss/XmlFileParser.cpp:249-257 | What is stored for a key leads to its level-four ancestor: the root of a tree of sixteen keys, and no further in a higher tree |

## Left out

- Sockets, threads, queues, locks, dynamic loading, configuration files and logging: each queued message is one atomic step, and what the environment returns is a parameter.
- Lost datagrams, partial sends, datagrams of one sender that overtake each other, and two senders with the same random id: the network keeps each sender's order, and sends are whole or not at all.
- Header lengths in the other forms that scanf takes (white space, sign, 0x) and copies outside a buffer, which only forged or damaged headers lead to; the model of the copy ignores bytes that fall outside.
- A datagram longer than the receive buffer, which the socket would cut: senders may use different sizes, but the receiver's is at least as large.
- Widths of the heap's cached size and of the list and table sizes: they are unbounded integers.
- Freeing of nodes and subscribers: shown is that a detached heap node is referred to by no live node.
- RealtimeEstimator.Estimator.GetElapsedRealtimeEstimateNanos: 64-bit wrap-around is not modelled, because nanosecond times do not reach it. The paired GPS and timer readings that a reset also clears are left out.
- AGPS APN buffers, bearer, type and subscription-id setters, callback priorities, and a manager whose callbacks are not set. Callbacks do not re-enter the machine.
- Agps.AgpsManager.ReleaseATL: a handle listed in both machines is released in the first only, as in the code; nothing more is said of such handles.
- A handle that is requested again while listed stays listed once and, when ACQUIRED, is told GRANTED again; `EveryRunConserves` counts this within its one open subscription.
- Null clients and subscription objects, which the public entry points drop, and data items that cannot be copied.
- The order of the calls of one notify round across clients, which the code does not fix: calls are recorded per client.
- What is announced to the framework is counted from the time the present subscription object was set, since a new object knows nothing of earlier calls.
- The values of data items other than network information: recording, merging and comparison are parameters (`Rules`, `copy`, `accepted`), because the per-type methods are repetitive.
- The type mask is the set of its one bits. It is not claimed to show the types in the handle table: on a disconnection with another handle of that type left it is not merged (core/SystemStatus.h:560-564).
- The connection of backhaul, the removal of unused data items and the string forms of items.
- The field values that NMEA parsers read from the tokenized text.
- A modem that refuses a restart or a query within a run, or reports before or after the distance asked for: the run theorems take one that does what it is asked (the operations themselves take either answer, and `ReportIsLateExactly` any reading). An id that is started while it is listed: `EveryRunOnTimeExactly` takes new ids, as core/LocAdapterBase.cpp:71-77 gives them; `EveryRunConservesExactly` takes any. The session restart (batching/BatchingAdapter.cpp:265-300), the batch-full event mask, the trip timeout, the option to stop a trip and keep its session, and what happens between a request to the modem and its answer.
- A path that is shorter than four levels is read past its end by the code; what is stored then is undefined and not modelled beyond that. A leaf above the root's level, on which the recursion would not end, cannot occur since leaves are on level 0.
- XML parsing, hexadecimal decoding of keys and the choice among three or more public keys.
- Client API translation, capability tables, geofences and random position blurring: forwarding, or easier copies of what is here.
