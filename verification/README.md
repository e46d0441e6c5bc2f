# Reliable delivery in Sandesha2/C

Sandesha2/C implements WS-ReliableMessaging. This project models the two ends of a sequence, what they keep
in their persistent stores, and an unreliable network between them, and proves what the protocol is for:
nothing is lost, nothing is delivered twice, and an acknowledgement never claims more than was received.

## How it is put together

| File | What it holds |
|---|---|
| `Prelude.dfy` | shared definitions |
| `ListText.dfy` | the comma separated text of message numbers: printing, `strtok`, `atol`, the two duplicate checks |
| `AckRanges.dfy` | from a completed list to acknowledgement ranges, and from ranges to the acked list and its count |
| `Stores.dfy` | the sequence property table and the sender table, as rows and beans |
| `DestinationModel.dfy`, `Destination.dfy` | the destination as functions on its state, and as methods on its stores |
| `DestinationRuns.dfy` | properties of the destination over runs |
| `SourceModel.dfy`, `Source.dfy` | the source as functions on its state, and as methods with the nested loops |
| `SourceRuns.dfy` | properties of the source over runs |
| `SourceEffects.dfy` | what single steps of the source leave behind, told by properties and fields |
| `SharedStore.dfy` | a server that is both ends on one property store |
| `ResendWorker.dfy` | the resend thread with its program points, next to everybody else who writes the store |
| `EndToEnd.dfy`, `StoredAcks.dfy` | source, network and destination together |
| `Restarted.dfy` | a sequence used again after it was given up |

The methods of the classes `Destination` and `Source` change their stores step by step, and each is proved
to do to the state what the function of the same step does. The theorems about runs are about those
functions. `EndToEnd` puts the runs of both sides side by side and keeps every packet in a set until it is lost.
The resend thread is not atomic: each access to the store is a step of its own, and
`ResendWorker.WorkIsSourceEvent` shows that each of these steps is an event of the source's runs.

Decisions of the surroundings are inputs of each step: whether a fault or an acknowledgement can be sent,
whether service, policy and version are found, whether an acknowledgement is due, whether the sequence has
timed out, which ids are generated. The statements hold for all of them unless they name a condition.

Facts of the code that shape the statements:

- The property table has no primary key. Inserting adds a row, reading keeps the last row it is given,
  updating rewrites all rows of a key; `Stores.PropertyStore` proves that this is a map in which insert overwrites.
  The model takes rows in the order of insertion.
- Updating a sender bean never inserts one (src/storage/sqlite/permanent_sender_mgr.c:366-415).
- A query for sender beans ignores the resend flag, and an internal sequence id that is not known adds no
  condition. An acknowledgement for an unknown outgoing id therefore selects from all sequences
  (`SourceRuns.UnknownAckRemovesIff`). End to end this does no harm, because the destination acknowledges
  nothing under an id the source does not know; that is part of `EndToEnd.NoLoss`.
- The check for exceeding the last message number is called without a property manager and never fires
  (src/msgprocessors/app_msg_processor.c:419), so it is not in the model.
- Whether the array list library compares strings by content is an input (`byContent`). `QueuedAtMostOnce`,
  `ExactlyOnceWhenListed` and `EndToEnd.ExactlyOnceOrWaiting` hold either way; where it matters the condition is named.
- In the processor the first number stored in an empty list is written as ",1"; `strtok` skips the
  empty token.
- A bean inserted without a value is written as "(null)" by the SQL writer and read back as such
  (src/storage/sqlite/permanent_seq_property_mgr.c:232-255; the code relies on that text at
  src/storage/sqlite/permanent_bean_mgr.c:112).
- Message numbers are read with `atol`. The in handler looks for duplicates of positive numbers only and the
  processor rejects only zero, so exactly the negative numbers can be queued twice (`QueuedTwiceIffNegative`).
- Giving a sequence up deletes its counters but not the way back from its outgoing id
  (`SourceRuns.GivenUpLeavesWayBack`). Numbers then start again at 1, and an acknowledgement of the old outgoing
  id that is still on its way removes a new message (`Restarted.LossAfterGiveUp`). The statements of `EndToEnd`
  are about messages stored since their sequence was given up last, and ask that no other message was given the
  same sequence and number, which can only be one that was dropped (`EndToEnd.IssuedOnceIff`).

## Model

| member | source | states |
|---|---|---|
| `EndToEnd.NoLoss` | src/msgprocessors/app_msg_processor.c:3043-3057 | in every reachable state of source, lossy, duplicating and reordering network, and destination, each message stored since its sequence was given up last, if ever, is in the sender store or in the completed list of the outgoing id it was addressed to, if no other message was given its sequence and number |
| `EndToEnd.IssuedOnceIff` | src/msgprocessors/app_msg_processor.c:1398-1428 | for such a message that condition fails if and only if a message with the same sequence and number was dropped by giving up, so it holds in every sequence that never was |
| `Restarted.LossAfterGiveUp` | src/util/terminate_mgr.c:534-840 | the condition is needed: for any two message ids there is a run in which the second is neither stored nor listed |
| `Restarted.StaleAckLosesMessage` | src/msgprocessors/ack_msg_processor.c:243-442 | every reachable state with an acknowledgement of number 1 under way can be continued so that a message is lost, by giving up, sending again, and processing it |
| `EndToEnd.ExactlyOnceOrWaiting` | src/handlers/sandesha2_in_handler.c:164-263 | under the same condition an application message is still waiting in the sender store or was handed to the application exactly once, and never more than once; only what carried its own number under its own outgoing id has to be proper |
| `EndToEnd.RoundTrip` | src/handlers/sandesha2_in_handler.c:454-558 | from every reachable state in which a message waits, and its next delivery is a duplicate or meets an open sequence with a service, one undisturbed round trip of message and answer takes it out of the sender store |
| `EndToEnd.HandedOnceEndToEnd` | src/msgprocessors/app_msg_processor.c:474-989 | a message, last messages included, whose own passes were reliable is handed over at most once, and never without being listed |
| `EndToEnd.QueuedOnceEndToEnd` | src/msgprocessors/app_msg_processor.c:898-989 | no number of an internal sequence that was given to one message only is queued twice, even when a repeated CreateSequence gave the sequence several outgoing ids |
| `EndToEnd.AcksAreSound` | src/msgprocessors/app_msg_processor.c:751-768 | every number acknowledged in flight is in the completed list, and every number there was issued by the source and addressed to that sequence |
| `EndToEnd.RemovedWasListed` | src/msgprocessors/ack_msg_processor.c:405-442 | when an acknowledgement removes a bean, a message with its sequence and number is in the list it acknowledges; that is the message itself if the two were given out once |
| `EndToEnd.StepKeeps` | src/msgprocessors/ack_msg_processor.c:243-442 | every step of either side and of the network keeps the invariant that joins stores, packets and lists |
| `StoredAcks.RecordedAreReceived` | src/msgprocessors/ack_msg_processor.c:494-527 | every positive number recorded at the source, under an internal id or an outgoing id, has been received for that sequence, although each acknowledgement overwrites the record and giving up moves it |
| `StoredAcks.AckIsCounted` | src/msgprocessors/ack_msg_processor.c:467-492 | the count read back after an acknowledgement is the sum of the lengths of its non-empty ranges; besides it only the record is written |
| `StoredAcks.UnknownAckIsCounted` | src/msgprocessors/ack_msg_processor.c:467-527 | for an unknown outgoing id the count is stored and no record is started |
| `StoredAcks.CountIsStored` | src/msgprocessors/ack_msg_processor.c:646-672 | that count is the number of acknowledged messages if and only if the ranges are disjoint |
| `StoredAcks.AckIsRecorded` | src/msgprocessors/ack_msg_processor.c:494-527 | the record read back holds exactly the covered numbers, under the outgoing id if a list was there and under the internal id otherwise; what is there when nothing is covered |
| `StoredAcks.NullText` | src/msgprocessors/ack_msg_processor.c:497-506 | a completed bean inserted without a value is read as the number 0 |
| `DestinationRuns.QueuedAtMostOnce` | src/msgprocessors/app_msg_processor.c:719-989 | over every run and in all surroundings no number from 1 upwards enters the invoker queue twice for one sequence |
| `DestinationRuns.QueuedTwiceIffNegative` | src/handlers/sandesha2_in_handler.c:300-343 | a number can enter the queue twice if and only if it is negative |
| `DestinationRuns.HandedAtMostOnce` | src/msgprocessors/app_msg_processor.c:474-596 | by queue or unpaused, a number is handed to the application at most once, and never without being listed, when the messages that carry it meet reliable surroundings, whatever befalls other numbers and sequences |
| `DestinationRuns.HandedOnceIffReliable` | src/msgprocessors/app_msg_processor.c:474-846 | surroundings guarantee that no run hands a number over twice if and only if faults can be sent and strings are compared by content or services are found |
| `DestinationRuns.HandedAgainIff` | src/handlers/sandesha2_in_handler.c:164-209 | exactly when a message whose number is listed is handed over again |
| `DestinationRuns.HandedUnlistedIff` | src/msgprocessors/app_msg_processor.c:508-576 | exactly when a new number is handed over without getting into the list |
| `DestinationRuns.ListedUnhandedIff` | src/handlers/sandesha2_in_handler.c:345-394 | exactly when a new number is listed, and so acknowledged, although nothing is handed over: last messages and empty bodies |
| `DestinationRuns.RefusedPassedOnEachTime` | src/msgprocessors/app_msg_processor.c:508-576 | when the fault cannot be sent, a message for an unknown or closed sequence is passed on each time it arrives and leaves no trace |
| `DestinationRuns.IsolatedPassedOnEachTime` | src/msgprocessors/app_msg_processor.c:802-814 | on an open sequence an isolated last message is passed on each time when strings are compared by address and the service is not found |
| `DestinationRuns.ExactlyOnceWhenListed` | src/msgprocessors/app_msg_processor.c:719-989 | a number carried by application messages only is listed if and only if it was handed over, and then exactly once, whatever other messages the run has |
| `DestinationRuns.ExactlyOnceIff` | src/msgprocessors/app_msg_processor.c:474-989 | for one message and its surroundings, the exact condition under which every run hands it over as often as it lists it |
| `DestinationRuns.ReopenedHandsAgainIff` | src/msgprocessors/create_seq_res_msg_processor.c:537-592 | opening a known sequence again makes exactly the listed numbers go to the application once more |
| `DestinationRuns.ListIsArrivals` | src/msgprocessors/app_msg_processor.c:719-768 | on a known, open sequence exactly the numbers other than 0 that arrived are added to the list |
| `DestinationRuns.Confluence` | src/msgprocessors/app_msg_processor.c:627-768 | completed set, highest number and acknowledgement depend only on which numbers arrived, not on order, repetition, other sequences or surroundings |
| `DestinationRuns.RedeliveryKeeps` | src/handlers/sandesha2_in_handler.c:302-343 | in every reachable state, on open, closed and unknown sequences, a redelivered message leaves queue, highest number and the listed set alone, and says exactly when the list itself stays the same |
| `DestinationRuns.HighestTracksList` | src/msgprocessors/app_msg_processor.c:627-707 | on every known, open sequence the stored highest number is the maximum of the completed list, 0 if empty |
| `DestinationRuns.ReceiveEffect` | src/handlers/sandesha2_in_handler.c:266-447 | one message changes its own sequence only, appends at most its own number, and queues only unlisted positive numbers |
| `DestinationRuns.AnsweredIff` | src/handlers/sandesha2_in_handler.c:181-184 | which messages come to where acknowledgements are made: dropped duplicates, and messages on open sequences whose service is found |
| `DestinationRuns.QueuedIff` | src/msgprocessors/app_msg_processor.c:898-989 | which messages enter the invoker queue |
| `DestinationRuns.QueuedOrPassedOn` | src/msgprocessors/app_msg_processor.c:898-1027 | a new application message is queued on a server that invokes in order and passed on everywhere else |
| `DestinationRuns.BareLastMessage` | src/handlers/sandesha2_global_in_handler.c:108-187 | a last message without actions and body element is never dropped as a duplicate, is listed, answered and never handed over |
| `DestinationRuns.LastActionKept` | src/msgprocessors/app_msg_processor.c:846-896 | a new message with a last message action is listed, answered and held back, whatever its body |
| `DestinationRuns.ServiceMissing` | src/msgprocessors/app_msg_processor.c:802-814 | without a service the number is listed, nothing is answered, and only a number found in the list is held back |
| `DestinationRuns.RefusedLeavesNoTrace` | src/msgprocessors/app_msg_processor.c:474-591 | a message with a body for an unknown or closed sequence changes nothing, and when it is held back |
| `DestinationRuns.RefusedList` | src/handlers/sandesha2_in_handler.c:345-394 | while a sequence is unknown, as after close, its list gains exactly the numbers of messages with an empty body |
| `DestinationRuns.ClosedList` | src/handlers/sandesha2_in_handler.c:345-394 | after close the list gains exactly the numbers of the messages that arrive with an empty body |
| `DestinationRuns.FinalAckIsFinalIff` | src/msgprocessors/close_seq_msg_processor.c:225-296 | the acknowledgement in the CloseSequenceResponse equals every later one if and only if no empty-body message with an unlisted number arrives after it |
| `Destination.Destination.Receive` | src/handlers/sandesha2_in_handler.c:97-263 | the handlers and the processor on stored text do exactly what the state function says, and an acknowledgement carries exactly the list |
| `Destination.Destination.GlobalIn` | src/handlers/sandesha2_global_in_handler.c:97-187 | a message is marked isolated exactly by its action, or as a last message without actions and body, and leaves with the last message action |
| `Destination.Destination.DropIfDuplicate` | src/handlers/sandesha2_in_handler.c:266-447 | drops exactly listed positive numbers, and records an unlisted empty-body message |
| `Destination.Destination.ProcessInMsg` | src/msgprocessors/app_msg_processor.c:474-1027 | refusal, highest number, list, queue, pause, status and acknowledgement of one message |
| `Destination.Destination.RaiseHighestIn` | src/msgprocessors/app_msg_processor.c:627-707 | create or update keeps the larger number |
| `Destination.Destination.CompleteNumber` | src/msgprocessors/app_msg_processor.c:719-770 | appends the number to the list text unless found |
| `Destination.Destination.CloseSequence` | src/msgprocessors/close_seq_msg_processor.c:148-296 | closed is recorded first, for known sequences only, and the acknowledgement returned is that of the list |
| `Destination.Destination.OpenSequence` | src/util/seq_mgr.c:161-185 | an empty list is stored and the sequence becomes known |
| `Destination.RepresentsOne` | src/storage/sqlite/permanent_seq_property_mgr.c:82-123 | stored text determines the state it stands for |
| `SharedStore.SourceLeavesDestination` | src/util/terminate_mgr.c:534-840 | what the source writes into the shared property store leaves the destination's state as it was, giving a sequence up exactly when nothing of the destination's is stored under its id (or moved from it) |
| `SharedStore.DestinationLeavesSource` | src/msgprocessors/app_msg_processor.c:627-768 | whatever the destination writes, every step of the source gives the same reply, the same beans and the same properties of its own |
| `AckRanges.GetAckRangeList` | src/util/sandesha2_utils.c:863-926 | ranges are non-empty, sorted, disjoint, not adjacent, and cover exactly the positive listed numbers |
| `AckRanges.SortNumbers` | src/util/sandesha2_utils.c:970-1020 | strictly increasing, exactly the positive entries, each once |
| `AckRanges.CanonicalUnique` | src/util/sandesha2_utils.c:863-926 | two acknowledgements of the same set are equal |
| `AckRanges.AckExists` | src/util/sandesha2_utils.c:863-926 | every completed list has its acknowledgement |
| `AckRanges.CompressExpandRoundTrip` | src/msgprocessors/ack_msg_processor.c:405-442 | expanding the ranges of a list, unsorted or with repeats, gives its positive numbers in order |
| `AckRanges.ExpandCompressRoundTrip` | src/util/sandesha2_utils.c:863-926 | grouping expanded ranges gives the ranges back |
| `AckRanges.CountAcked` | src/msgprocessors/ack_msg_processor.c:646-672 | the closed-form sum is the length of the acked list for any ranges |
| `AckRanges.CountIsUnionSize` | src/msgprocessors/ack_msg_processor.c:467-492 | the count is the number of distinct acknowledged messages if and only if the ranges are disjoint |
| `ListText.ParsePrint` | src/wsrm/msg_number.c:171 | reading a printed number gives the number |
| `ListText.AppendNumber` | src/msgprocessors/app_msg_processor.c:751-768 | appending a comma and the printed number appends exactly that number to what the text means |
| `ListText.JoinedRoundTrip` | src/util/sandesha2_utils.c:321-363 | printing a list and splitting and reading it again returns the list |
| `ListText.NumericAndTextualTestsAgree` | src/msgprocessors/app_msg_processor.c:1729-1765 | the number comparison of the in handler and the string comparison of the processor agree on every list either of them writes |
| `ListText.ListedByNumber` | src/handlers/sandesha2_in_handler.c:300-343 | the scan finds exactly the listed numbers |
| `ListText.ListedByText` | src/msgprocessors/app_msg_processor.c:1729-1765 | the string lookup finds exactly the listed numbers, or nothing when addresses are compared |
| `ListText.GetArrayListFromString` | src/util/sandesha2_utils.c:271-300 | the tokens, each once |
| `ListText.ArrayListToString` | src/util/sandesha2_utils.c:321-363 | the joined text, none for an empty list |
| `Stores.PropertyStore.Retrieve` | src/storage/sqlite/permanent_seq_property_mgr.c:82-123 | the row inserted last wins |
| `Stores.RewriteView` | src/storage/sqlite/permanent_seq_property_mgr.c:321-351 | updating all rows of a key overwrites its value, and does nothing when there is none |
| `Stores.RowIdInjective` | src/storage/sqlite/permanent_seq_property_mgr.c:447-473 | two properties never share a row id |
| `Stores.SenderStore.FindCandidates` | src/storage/sqlite/permanent_sender_mgr.c:441-577 | the answer holds exactly the beans that match, whatever their resend flag |
| `Stores.SenderStore.Insert` | src/storage/sqlite/permanent_sender_mgr.c:269-318 | inserting fails exactly when the message id is taken |
| `Stores.SenderStore.Update` | src/storage/sqlite/permanent_sender_mgr.c:366-415 | updating never inserts |
| `Source.Source.ProcessOutMsg` | src/msgprocessors/app_msg_processor.c:1269-1727 | properties, sender beans, reply and start of the create exchange of one call are those of the state function |
| `Source.Source.SendAppMsg` | src/msgprocessors/app_msg_processor.c:2818-3057 | which of last number and sender bean is written before each of the failures |
| `Source.Source.RemoveAcked` | src/msgprocessors/ack_msg_processor.c:405-442 | the nested loops remove the first match of every number of every range and list all numbers |
| `Source.Source.ProcessInMsg` | src/msgprocessors/ack_msg_processor.c:215-527 | the whole effect of one acknowledgement on stores, count and recorded list |
| `Source.Source.ProcessOffer` | src/msgprocessors/create_seq_msg_processor.c:346-408 | an offer longer than one character is linked in both directions |
| `SourceRuns.LastNumberIsMaximum` | src/msgprocessors/close_seq_msg_processor.c:622-645 | the number that `Source.LastMessageNumber` reads for CloseSequence is there exactly when a message was prepared, and is their largest; it is the largest ever given to `send_app_msg` if and only if the last one given found its policy |
| `SourceRuns.AckIsSetDifference` | src/msgprocessors/ack_msg_processor.c:337-442 | in every reachable state an acknowledgement for a known id leaves exactly the old store minus this sequence's waiting application beans in some range |
| `SourceRuns.AckIsDifferenceIffUnique` | src/msgprocessors/ack_msg_processor.c:626-644 | the loops compute the set difference if and only if no two candidates share an acknowledged number |
| `SourceRuns.UnknownAckRemovesIff` | src/msgprocessors/ack_msg_processor.c:243-342 | an acknowledgement for an unknown id removes something if and only if some sequence has a waiting message with such a number |
| `SourceRuns.Numbering` | src/msgprocessors/app_msg_processor.c:1362-1428 | assigned numbers are positive and strictly increasing per sequence; the counter is the last of them; LastOutMsgNo is the largest number prepared and at most the counter |
| `SourceRuns.NumbersWithoutGaps` | src/msgprocessors/app_msg_processor.c:1398-1428 | without client numbers the assigned ones are exactly 1 to k, dummy messages and failures taking none |
| `SourceRuns.AcceptedIffAboveAll` | src/msgprocessors/app_msg_processor.c:1324-1409 | a client number is accepted if and only if it is positive and above every number assigned before in its sequence; a rejected call leaves no trace |
| `SourceEffects.AcceptedNumber` | src/msgprocessors/app_msg_processor.c:1398-1428 | an accepted call gets the client's number, or the one after the last assigned; real messages take it, dummy messages do not |
| `SourceEffects.AcceptedStores` | src/msgprocessors/app_msg_processor.c:1425-1438 | the numbers read back after an accepted call, counter, highest and last, are that number |
| `SourceEffects.StoredBean` | src/msgprocessors/app_msg_processor.c:3043-3057 | a new message is in the sender store, ready to send and under its number, exactly when the call says it was stored |
| `SourceEffects.HaltedIff` | src/msgprocessors/app_msg_processor.c:1269-1322 | exactly which calls halt, that they only clear the flag, and that the next one does not |
| `SourceEffects.CreatingIff` | src/msgprocessors/app_msg_processor.c:1491-1541 | the exchange starts exactly for number 1 without a linked outgoing id when none was started since the last give-up |
| `SourceRuns.BeanNumbers` | src/msgprocessors/app_msg_processor.c:2849-3057 | every application bean's number is between 1 and LastOutMsgNo, at most NextMsgNo, and unique in its sequence |
| `SourceRuns.OneCreateSequence` | src/msgprocessors/app_msg_processor.c:1491-1619 | the create exchange is started at most once per internal sequence, despite dummy messages and failed attempts |
| `SourceRuns.LinkKeepsInverseIff` | src/msgprocessors/create_seq_msg_processor.c:376-408 | linking keeps the two id maps inverse if and only if both ids are new or each other's already |
| `SourceRuns.OfferKeepsInverseIff` | src/msgprocessors/create_seq_msg_processor.c:731-749 | the same for an offer, which may be too short to be accepted |
| `SourceRuns.IdsStayInverse` | src/msgprocessors/create_seq_msg_processor.c:346-408 | the maps are inverse partial injections throughout a run if and only if all its links are fresh and only unlinked sequences are given up |
| `SourceRuns.GiveUpKeepsInverseIff` | src/util/terminate_mgr.c:534-840 | giving a sequence up keeps the maps inverse if and only if it was not linked |
| `SourceRuns.LeadsBackStepIff` | src/msgprocessors/create_seq_res_msg_processor.c:279-323 | outgoing ids keep leading back to their sequences under every event except linking an id another sequence still uses |
| `SourceRuns.AckStaysInSequence` | src/msgprocessors/ack_msg_processor.c:243-442 | while no id in use is linked again, an acknowledgement never removes a bean of another sequence, whatever was given up |
| `SourceRuns.OfferedTwice` | src/msgprocessors/create_seq_msg_processor.c:605-728 | when one id is offered to two sequences, since the cleanup only frees memory, an acknowledgement on it leaves all beans of the first and removes those of the second |
| `SourceRuns.InternalIdInjective` | src/util/sandesha2_utils.c:411-418 | different incoming sequences have different internal ids |
| `SourceRuns.GivenUpLeavesWayBack` | src/util/terminate_mgr.c:534-840 | giving up resets the numbering but leaves the way back from the outgoing id |
| `SourceEffects.GivenUpElsewhere` | src/util/terminate_mgr.c:475-560 | giving up moves completed list, closed and timed out flags to the outgoing id and changes nothing else of other ids |
| `ResendWorker.RemovedForGood` | src/msgprocessors/app_msg_processor.c:3787-3847 | in every schedule a removed bean never comes back and the message is transmitted at most once more |
| `ResendWorker.OneMoreTransmissionIff` | src/msgprocessors/app_msg_processor.c:3796-3820 | from exactly which program points one more transmission is possible |
| `ResendWorker.ExitsSoonAfterRemoval` | src/msgprocessors/app_msg_processor.c:3646-3714 | after removal the worker exits within five of its steps, if it is past the waiting loop or the outgoing id stays known |
| `ResendWorker.EndsAfterRemovalIff` | src/msgprocessors/app_msg_processor.c:3560-3592 | after removal the worker is sure to end if and only if it has left the waiting loop or the retransmission count is positive, since the outgoing id may be deleted by giving up |
| `ResendWorker.TerminatesWithMaximum` | src/msgprocessors/app_msg_processor.c:3560-3714 | with a positive retransmission count both loops end within a bound given by maximum and count, in every schedule |
| `ResendWorker.TerminatesIffMaximum` | src/util/msg_retrans_adjuster.c:51-132 | a bound for all schedules exists if and only if the retransmission count is positive |
| `ResendWorker.GivesUpIff` | src/util/msg_retrans_adjuster.c:92-122 | the adjuster gives the sequence up exactly on a timeout or when the message was counted as often as a positive maximum says |
| `ResendWorker.SentMaximumPlusOne` | src/msgprocessors/app_msg_processor.c:3646-3714 | undisturbed, a message of a linked sequence goes out exactly once more often than the maximum, then its sequence is given up |
| `ResendWorker.WorkIsSourceEvent` | src/msgprocessors/app_msg_processor.c:3560-3847 | every step of the worker is, on beans and properties, one of the source's events or leaves the stores alone |

## Left out

- Integer width: longs are unbounded, and the fixed SQL and number buffers never overflow.
- SOAP and WS-Addressing processing, operation contexts, transport calls and storage of message contexts: a send is a packet in the network.
- The order in which SQLite returns rows: taken to be the order of insertion.
- Contents of faults: only whether a message is refused and whether the fault could be sent.
- The invalid acknowledgement fault, which is sent without stopping the processing, and Nacks, which the code does not process.
- The invoker worker, polling, and Terminate on both sides: runs only know that the terminate message was queued, after which acknowledgements do nothing; nothing is claimed about in-order invocation.
- Ack completeness as a condition for Terminate: the guard in the code is commented out.
- Properties that nothing above reads: the key and id of the highest message, LastInMessage ids, LastOutMessage, addresses, activation times.
- The one-way client loop that resends in the caller's thread (app_msg_processor.c:3150-3260): its loop has the shape of the resend thread's.
- Messages that are injected again after processing, and processor failures before the sequence is looked at.
- Client internal ids built from address and key: taken as given; two pairs with one concatenation share a sequence.
- ResendWorker.WorkStep: the message context in the store may be freed under the worker; only sender beans and properties are modelled.
- DestinationRuns.Feasible: a sequence is opened once, under a generated id. A client that gets a second CreateSequenceResponse with an Accept stores an empty list again for the offered sequence (create_seq_res_msg_processor.c:537-592); `ReopenedHandsAgainIff` says what that does, and the runs leave it out.
- EndToEnd.NoLoss: sequences offered in the other direction, and several sources for one destination, are not part of the joint model; unique message ids and fresh generated sequence ids are assumed.
- EndToEnd.ExactlyOnceOrWaiting: a message addressed but removed by giving up has no claim beyond at most once.
- StoredAcks.RecordedAreReceived: internal ids are taken never to equal ids the destination generates; those are random, while internal ids carry a prefix or the client's key.
