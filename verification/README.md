# GPU telemetry pipeline: a verified model

This project models two parts of the repository and proves properties of them.

**The telemetry pipeline.** The streamer walks a metric table in cyclic batches. The publisher
service stores each message. The in-memory store indexes messages and offers them, without
blocking, to channels of capacity 100, which a context goroutine or `Close` later shuts. The
subscriber service forwards what a channel yields. The collector decodes, stores and acknowledges.
The collector's storage keeps a per-GPU index of the records.

**The algorithms in the Swagger bundle** that depend on no I/O: the persistent hash trie, the
buffer's UTF-8 encoder and decoder, base64, the block buffer of the hash functions, and the stable
array sort. All of that code is on line 2 of `swagger/swagger-ui-standalone-preset.js`.

## Reading the project

| file | content |
|---|---|
| `MessageStore.dfy` | the store as a machine over its atomic steps; invariants of every run; conservation per channel |
| `StoreCalls.dfy` | what each call does to the store's fields; what a subscription gets |
| `Claims.dfy` | `GetMessages`: draining, redelivery, messages under two topics |
| `InMemoryStore.dfy` | the store as a class; each method is proved to be its step of the machine |
| `Pipeline.dfy` | store, subscription sessions and one collector as one machine |
| `PipelineRuns.dfy` | runs of the pipeline told by their actions: what arrives, what a failure costs, that nothing gets stuck |
| `Interleaving.dfy` | what happens at the store while a request loop runs: its own calls among those of other clients |
| `PublisherService.dfy`, `SubscriberService.dfy` | the request loops, over the store class and with any calls of others in between |
| `Collector.dfy` | one response and its acknowledgments, over the storage class |
| `MemoryStorage.dfy`, `Models.dfy` | the collector's storage as a class, and its records |
| `Streamer.dfy` | the cursor over the metric table |
| `HashTrie.dfy`, `TrieLoops.dfy`, `Bits.dfy` | module 3393 of the bundle |
| `Utf8.dfy`, `Base64.dfy`, `HashBlocks.dfy`, `MergeSort.dfy` | modules 8764, 9742, 4189 and 1388 |
| `Wrappers.dfy`, `Division.dfy` | optional values, bytes and small facts; division by a variable |

Every store method runs under one lock, so a call is one step of the machine in `MessageStore`, and
the steps that interleave with calls are the cleanup goroutines and the receives. A run is a list of
states and a list of events (`MessageStore.Behaviour`, `Pipeline.Run`), and the results about runs
hold at every position of every run. What the environment decides is an input: the id and time a
message may need, the order a map iteration happens to take, whether a stream, a send or a storage
call fails, and the decoder, a partial function that fails on an empty payload. The panic that Go
raises for a send on a closed channel and for a second `close` is a flag of the machine
(`panicked`), proved never to be set.

The request loops of the two services run one round after the other, and other clients may call the
store between any two of their calls. What others call there is an argument, and a loop returns the
trace of the store: its states, all calls, and the positions of its own. Results about a loop are
stated over that trace; what holds for a client that is alone is a corollary.

A channel carries its history beside its buffer: each offer made to it with the number of messages
waiting at that moment, what was received, and the publishes between which it was open. The program
does not read these fields.

Three places behave differently from what a reader might expect, and the model keeps them:

* `acknowledgeMessages` closes its one stream inside the loop over chunks of 100, so for more than
  100 ids only the first 100 are sent and the call fails (`Collectors.AcknowledgeMessages`,
  `Collectors.AllAcknowledgedIff`, `Collectors.SecondChunkExample`). The responses of the subscriber
  service hold one message each, so they never reach that case (`Collectors.StoredAreAcked`).
* After its channel is closed, the delivery loop keeps receiving nil and sends it on. It arrives as
  an empty message, which does not decode (`SubscriberService.Deliver`,
  `Pipeline.SinkInOrderAtMostOnce`).
* A base64 string with a whole quantum of padding after other characters, like `abcd====`, decodes to
  two zero bytes in place of its last real quantum (`Base64.DecodedQuanta`).

Three promises fail for some inputs; each has a lemma with the exact condition. A store returns only
messages of the requested topic as long as no message is stored under an id that another topic lists
(`Claims.PureRun`, `Claims.MisfiledExample`). `byteLength` of base64 is the length of the decoded
array unless the string starts with the padding character, for which `toByteArray` throws
(`Base64.ByteLengthIsLength`, `Base64.PaddingOnlyExample`). The UTF-8 encoder replaces each unpaired
surrogate, but loses a lead surrogate that directly follows another lead surrogate at the end of the
string (`Utf8.LosesOnlyAHeldLead`, `Utf8.LostLeadExample`).

Bit operations are modelled on 32-bit words in `Bits.dfy`. In the UTF-8, base64 and hash buffer
models, where all numbers are small and not negative, shifts and masks are written as the division,
remainder and multiplication they perform.

## Model

| member | source | states |
|---|---|---|
| MessageStore.AlwaysSound | internal/mq/storage/message_store.go:65-253 | in every state of every run: no send reached a closed channel and none was closed twice; a channel is open exactly while it is registered, and then under its own topic; messages sit under their own id and in their topic's index; only stored ids are tracked; every channel's bookkeeping holds |
| MessageStore.RegisteredOnce | internal/mq/storage/message_store.go:89-99 | a registered channel is open, was never closed, and is registered under exactly one topic |
| MessageStore.ClosedOnlyBy | internal/mq/storage/message_store.go:143-154 | a step closes an open channel exactly if it is that channel's cleanup or a Close |
| MessageStore.ChannelLater | internal/mq/storage/message_store.go:127-157 | over any stretch of a run a channel keeps its topic and only extends its history, and a closed one stays closed and is offered nothing more |
| MessageStore.CleanupIsLocal | internal/mq/storage/message_store.go:143-154 | a cleanup that finds its channel closed changes nothing; otherwise it closes and unregisters that channel and touches nothing else |
| MessageStore.CleanupAfterClose | internal/mq/storage/message_store.go:143-154 | a cleanup that fires after a Close, whatever was subscribed in between, is a step without effect |
| MessageStore.Conservation | internal/mq/storage/message_store.go:89-141 | at every moment, received then waiting messages are a subsequence of the topic's publishes since subscribing; published = received + waiting + dropped; at most 100 wait; the first 100 publishes since subscribing are never dropped; without drops nothing is missing |
| MessageStore.SentOrDropped | internal/mq/storage/message_store.go:89-99 | each publish due to a channel is counted either as sent or as dropped, not both |
| MessageStore.LostIffFull | internal/mq/storage/message_store.go:89-99 | a publish is lost to an open channel of its topic exactly if 100 messages wait in it at that moment, and that never changes later |
| MessageStore.ChannelStep | internal/mq/storage/message_store.go:65-253 | the effect of every kind of step on every existing channel |
| StoreCalls.StepDoes | internal/mq/storage/message_store.go:65-253 | every call in the store's own fields: which message, index entry, claim, registration and buffer changes and which does not; a publish enters each registered channel with fewer than 100 messages waiting and no other |
| StoreCalls.MayHappen | internal/mq/storage/message_store.go:65-253 | every call can happen at any time; only a receive waits, while its channel is open and empty |
| StoreCalls.PanicsExactlyIf | internal/mq/storage/message_store.go:89-242 | in any state, a step panics exactly if it sends to a registered channel that is closed, or closes one that is closed or registered twice |
| StoreCalls.SubscriptionStarts | internal/mq/storage/message_store.go:127-140 | a subscription adds an open, empty, never closed channel of the topic, born at the current publish and registered under the topic |
| StoreCalls.SubscriptionLasts | internal/mq/storage/message_store.go:127-157 | at any later moment of a run the channel is open, and registered, exactly if neither its own cleanup nor a Close happened in between |
| StoreCalls.SubscriptionGets | internal/mq/storage/message_store.go:81-99 | until then every publish to the topic enters its buffer if fewer than 100 messages wait there and counts as dropped otherwise, for good |
| Claims.BatchTakes | internal/mq/storage/message_store.go:191-230 | one batch has distinct unclaimed stored messages of the topic, as many as fit or as are left, and claims exactly those for a named consumer and nothing for an unnamed one |
| Claims.BatchIsStored | internal/mq/storage/message_store.go:117-125 | every returned message is stored under its own id and listed under the topic; ids left in the index by Delete are never returned |
| Claims.Drain | internal/mq/storage/message_store.go:191-230 | a named consumer alone gets disjoint batches of size min(b, remaining), and has got exactly the n unclaimed messages exactly when it has called ceil(n/b) times or more, for all iteration orders |
| Claims.ClaimStep | internal/mq/storage/message_store.go:117-230 | after a step a consumer holds a claim exactly if the step gave it the message, or it held it before and the step does not delete the message, close the store, or claim or acknowledge it for another consumer |
| Claims.ClaimedUnlessLost | internal/mq/storage/message_store.go:117-230 | over any stretch of a run a claim is still there exactly if no event took it away without a later one giving it back |
| Claims.RedeliveryNeedsRelease | internal/mq/storage/message_store.go:160-230 | in any run, a message handed twice to one named consumer was released in between; storing it again is not enough |
| Claims.ReleasedIsDeliverable | internal/mq/storage/message_store.go:160-230 | right after a release the consumer can be handed the message again exactly if the release was another consumer's claim or acknowledgment |
| Claims.PureRun | internal/mq/storage/message_store.go:66-87 | every state of a run keeps each message under its own topic only, exactly if no Store of the run uses an id another topic lists |
| Claims.PureIffBatchesAre | internal/mq/storage/message_store.go:191-230 | that is exactly when no possible batch returns a message of another topic |
| Claims.MisfiledExample | internal/mq/storage/message_store.go:66-87 | a run of two Stores after which topic "a" returns a message of topic "b" |
| InMemoryStores.InMemoryStore.Store | internal/mq/storage/message_store.go:65-102 | in place: fills in id and time, stores, indexes, and offers the message to every registered channel of the topic, whose channels are all open |
| InMemoryStores.InMemoryStore.Notify | internal/mq/storage/message_store.go:89-99 | the notification loop, in any order of the channels, offers to exactly the registered ones |
| InMemoryStores.InMemoryStore.Delete | internal/mq/storage/message_store.go:117-125 | removes message and claim, keeps the invariants |
| InMemoryStores.InMemoryStore.Subscribe | internal/mq/storage/message_store.go:127-157 | makes a new channel that is open, empty, of the topic and registered under it; nothing else changes, and the invariants are kept |
| InMemoryStores.InMemoryStore.Cleanup | internal/mq/storage/message_store.go:143-154 | the goroutine's step, keeps the invariants |
| InMemoryStores.InMemoryStore.Acknowledge | internal/mq/storage/message_store.go:159-170 | claims a stored message for the consumer, reports a missing one |
| InMemoryStores.InMemoryStore.GetMessages | internal/mq/storage/message_store.go:190-230 | the loop with its in-loop claims returns the batch and leaves the claims that the machine's step describes, for the order the iteration took |
| InMemoryStores.InMemoryStore.Close | internal/mq/storage/message_store.go:232-253 | closes every registered channel once and clears the maps, keeps the invariants |
| InMemoryStores.InMemoryStore.CloseChannels | internal/mq/storage/message_store.go:237-242 | the nested loop closes exactly the registered channels, each of them open when it is reached |
| Pipeline.SinkInOrderAtMostOnce | internal/telemetry/collector.go:150-274 | in every run, with failing streams and resubscriptions, the sink holds the decoded records of publishes to the topic in publish order, each publish at most once; nil and undecodable messages give no record |
| Pipeline.AckedIsStored | internal/telemetry/collector.go:248-268 | every acknowledged publish has its record in the sink, and acknowledgments are in order and not repeated |
| Pipeline.NothingLostWithoutFaults | internal/mq/service/subscriber_service.go:99-120 | without a failed stream, a lost response or a rejected batch, at every moment the sink's records followed by what decodes on the wire and in the channel make up everything decodable the channel was sent, in order |
| Pipeline.ExactlyOnceWithoutFaults | internal/mq/service/subscriber_service.go:99-120 | if moreover nothing was dropped and nothing is in transit, the sink is the list of records of every decodable publish since the subscription, each once and in order |
| Pipeline.ActGood | internal/mq/service/subscriber_service.go:99-120 | the inductive invariant behind these: records, responses on the wire and waiting messages are in publish order together |
| Pipeline.HandlesOneResponse | internal/telemetry/collector.go:230-268 | the collector's step of the machine stores the record and leaves the id to acknowledge that the collector's loop over that one response does |
| Pipeline.ForwardsDeliver | internal/mq/service/subscriber_service.go:104-119 | consecutive delivery steps of the machine leave the channel and put on the wire what the delivery loop does |
| PipelineRuns.StoreRuns | internal/mq/storage/message_store.go:65-253 | what the store goes through in a run of the pipeline is a run of the store, by the calls its actions make |
| PipelineRuns.PublishedByActions | internal/mq/storage/message_store.go:81-87 | over any stretch of a run the store publishes exactly the messages of the publishing actions, with missing ids and times filled in, in order |
| PipelineRuns.SinkFollowsActions | internal/telemetry/collector.go:230-250 | in every run the sink holds records of messages that the actions published to the topic, in their order, each message at most once |
| PipelineRuns.EveryPublishArrives | internal/mq/service/subscriber_service.go:99-120 | if nothing failed and fewer than 100 messages waited at each publish, then with nothing in transit the sink is exactly the records of the messages the actions published to the topic after the session attached, up to the closing of its channel |
| PipelineRuns.CanDrain | internal/telemetry/collector.go:198-274 | from every state of every run in which the collector's session is attached, a continuation of deliveries, stores and acknowledgments empties wire and channel: nothing gets stuck |
| PipelineRuns.FailureLosesTheLine | internal/telemetry/collector.go:198-208 | whatever is on its way when a receive fails never reaches the sink; everything stored later was published after the failure |
| PipelineRuns.AcksClaim | internal/mq/storage/message_store.go:159-170 | an acknowledgment that arrives gives the collector the claim on a message that is still stored |
| PipelineRuns.OneMessageArrives | internal/telemetry/collector.go:150-274 | the run of one message, from subscription and publish to its record in the sink and its claim in the store |
| PublisherService.Publish | internal/mq/service/publisher_service.go:37-104 | whatever other clients call in between: a request is done exactly while all up to it have a message and, if they wait, are not expired and can be answered; acknowledges exactly the done requests that wait for it, in order; its calls at the store are those of the done requests, in order, plus the one whose acknowledgment fails; the status says why it stopped |
| PublisherService.PublishedInOrder | internal/mq/service/publisher_service.go:65-97 | among all publishes of the run, the requests' messages, with missing ids and times filled in, appear in request order, each before its request is acknowledged |
| PublisherService.AckedIsPublished | internal/mq/service/publisher_service.go:54-97 | an acknowledged id is not empty and the store has its message from the store call on; at the acknowledgment it is stored exactly if no other client deleted it or closed the store in between, or a later call stored the id again |
| Interleaving.StoredUnlessGone | internal/mq/storage/message_store.go:65-125 | over any stretch of a run a stored id is still stored exactly if no event deleted it or closed the store without a later one storing it again |
| Interleaving.Others | internal/mq/storage/message_store.go:65-253 | the calls of other clients at one point of a loop: each is made, in order, unless it is blocked at that moment |
| PublisherService.PublishAlone | internal/mq/service/publisher_service.go:37-104 | without other clients the store ends as the one that stored exactly these messages one after the other |
| PublisherService.PublishStream | internal/mq/service/publisher_service.go:37-104 | a call on any stream of requests acknowledges, in order, the id of each done request that waits, and leaves the messages of the stored requests in the publish history in request order, each before its request is done and kept as above; without other clients the store is the one that stored exactly these |
| PublisherService.StoredPublishes | internal/mq/service/publisher_service.go:65-68 | storing messages one after the other extends the publish history by exactly them, in order |
| SubscriberService.Acknowledge | internal/mq/service/subscriber_service.go:136-177 | whatever other clients call in between: the call for each accepted request has its fields, neither of them empty, and finds its message stored at that moment; the first request that lacks a field or finds no message ends the loop, and the status says why |
| SubscriberService.AckLasts | internal/mq/service/subscriber_service.go:136-177 | an accepted message belongs to its consumer right after its call, and at any later moment exactly if no event of the run took it away for good: another consumer's claim or acknowledgment, a deletion or a close |
| SubscriberService.AcknowledgeAlone | internal/mq/service/subscriber_service.go:136-177 | without other clients the loop changes claims only, each id ends with the consumer that acknowledged it last, and it stops at the first request not acceptable from the start |
| SubscriberService.Deliver | internal/mq/service/subscriber_service.go:104-119 | the delivery loop with any calls of others between its rounds: it receives in exactly the rounds that find a message or a closed channel, and sends in order exactly what it received in rounds whose response can be sent |
| SubscriberService.DeliveredInOrder | internal/mq/service/subscriber_service.go:104-119 | among any calls of others, the loop receives each message of its channel once and in order, and nil only from a closed channel |
| SubscriberService.DeliverAlone | internal/mq/service/subscriber_service.go:104-119 | without other clients it receives the channel's waiting messages, then nil for as long as a closed channel is read, and waits only at an open empty channel |
| Collectors.AcknowledgeMessages | internal/telemetry/collector.go:278-316 | sends a prefix of the ids: at most 100 and at most what the connection carries; succeeds exactly if there are no ids, or at most 100 and the connection holds |
| Collectors.AllAcknowledgedIff | internal/telemetry/collector.go:289-313 | over a healthy connection all ids are sent exactly if there are at most 100, which one-message responses guarantee |
| Collectors.SecondChunkExample | internal/telemetry/collector.go:289-313 | of 101 ids the first 100 are sent and the call fails, over a connection that would carry them all |
| Collectors.RecordsAndIdsAlign | internal/telemetry/collector.go:230-246 | record i and id i come from the same message, and these are exactly the messages that decode, in order |
| Collectors.HandleResponse | internal/telemetry/collector.go:210-272 | heartbeats, undecodable responses and rejected batches store and acknowledge nothing; otherwise exactly the decoded records are stored and only their ids acknowledged |
| Collectors.KeptAre | internal/telemetry/collector.go:210-272 | a stream of responses adds to the storage, one after the other, the records of each response that is no heartbeat and is accepted |
| Collectors.ProcessSubscription | internal/telemetry/collector.go:198-274 | over a whole stream of responses, the storage grows by the kept records in order and the acknowledged ids are those of each kept response, cut to its first chunk and to what its connection carries |
| Collectors.StoredAreAcked | internal/telemetry/collector.go:248-316 | with responses of at most 100 messages, which the subscriber service's one-message responses are, and connections that last, exactly the ids of the stored records are acknowledged, in order |
| Collectors.AckedAreStored | internal/telemetry/collector.go:248-268 | whatever fails, only ids of stored records are acknowledged |
| MemoryStorages.MemoryStorage.Store | internal/telemetry/memory_storage.go:26-44 | appends the batch to the log the index agrees with: same keys in both maps, each list is the log filtered by UUID in order, each entry is the identity in the last record |
| MemoryStorages.MemoryStorage.GetGPUTelemetry | internal/telemetry/memory_storage.go:46-66 | sorted by time, and holds each record of the GPU with start <= timestamp <= end as often as the log does, and no other record |
| MemoryStorages.MemoryStorage.ListGPUs | internal/telemetry/memory_storage.go:68-80 | one entry for every UUID in the log, each with the UUID, index, device and hostname of its last record |
| MemoryStorages.MemoryStorage.Close | internal/telemetry/memory_storage.go:82-91 | an empty index of an empty log |
| MemoryStorages.IndexAnswersLog | internal/telemetry/memory_storage.go:51-58 | selecting by time from one GPU's list gives what a scan of the whole log gives |
| MemoryStorages.ListsPartitionLog | internal/telemetry/memory_storage.go:39-40 | every record of the log is in its GPU's list as often as in the log |
| MemoryStorages.OfIsNonEmpty | internal/telemetry/memory_storage.go:31-41 | a GPU has a list exactly if the log has a record of it, and the list holds only its records |
| Streamers.CursorIs | internal/telemetry/streamer.go:189-203 | after k ticks the cursor is min(b * ((k-1) mod m + 1), n) with m = ceil(n/b) |
| Streamers.OnePass | internal/telemetry/streamer.go:189-203 | any m ticks from the start of a pass select the table once and in order |
| Streamers.TickIs | internal/telemetry/streamer.go:189-203 | the tick after k ticks selects rows b * (k mod m) to min(that + b, n), with m = ceil(n/b), and no row for batch size zero |
| Streamers.SelectedIs | internal/telemetry/streamer.go:189-203 | how often a metric was selected after any number of ticks |
| Streamers.SelectedEvenly | internal/telemetry/streamer.go:189-203 | selection counts of two metrics never differ by more than one |
| Streamers.Streamer.CollectAndProcess | internal/telemetry/streamer.go:176-203 | one tick, in place: loads the table while there is none, takes the rows given above for that tick and moves the cursor; slicing panics exactly if the batch size is negative and the table has been read |
| HashTrie.RunRefines | swagger/swagger-ui-standalone-preset.js:2 | after any sequence of sets and removals, whatever the hash function, get answers as a finite map does and size is its cardinality |
| HashTrie.RunIsLastPut | swagger/swagger-ui-standalone-preset.js:2 | after any sequence of sets and removals a key has the value of the last operation on it, the default if that was a removal or there is none, and size counts the last operations that set |
| HashTrie.FormChanges | swagger/swagger-ui-standalone-preset.js:2 | a bitmap node becomes a hash array exactly when a 17th child is added, and a hash array becomes a bitmap node exactly when it has 8 children and one goes |
| HashTrie.Sizes | swagger/swagger-ui-standalone-preset.js:2 | an array map has at most 8 entries, a bitmap node at most 16 children, a hash array 32 slots and at least 8 children |
| HashTrie.PutRefines | swagger/swagger-ui-standalone-preset.js:2 | one set or removal (`oe`) on any well-formed map: the bindings change as in a finite map, size counts them, and the invariant holds again |
| HashTrie.UpdateCorrect | swagger/swagger-ui-standalone-preset.js:2 | `update` of the node classes: the invariant (popcount equals child count, count equals non-empty slots, every key's hash agrees with its path) is kept through growth, packing, collapse and collisions, only key k changes, and the change flags tell the truth |
| HashTrie.UpdateRootCorrect | swagger/swagger-ui-standalone-preset.js:2 | the same for a root that may be an array map of up to eight entries |
| HashTrie.ReplaceCorrect | swagger/swagger-ui-standalone-preset.js:2 | replacing one child, with expansion past 16 children, packing below 8 and collapse to a single leaf, changes that slot only |
| HashTrie.SplitCorrect | swagger/swagger-ui-standalone-preset.js:2 | `ae`: splitting a leaf and a new entry with another hash gives a well-formed node that holds the leaf's bindings and the new one |
| HashTrie.RoomToSplit | swagger/swagger-ui-standalone-preset.js:2 | two different hashes that agree on the path so far differ in a slice at a level from the path's length up to six, so at most seven levels are used and the shift stays at most 30 |
| HashTrie.CreateCorrect | swagger/swagger-ui-standalone-preset.js:2 | `ce`: the trie built from an overfull array map has the bindings of its entries and, for other keys, those of the node it starts with |
| HashTrie.ArrayMapPut | swagger/swagger-ui-standalone-preset.js:2 | update of an array map, including the overflow into a trie |
| HashTrie.PackedNode | swagger/swagger-ui-standalone-preset.js:2 | `fe`: packing keeps every child but the excluded one |
| HashTrie.ExpandedNode | swagger/swagger-ui-standalone-preset.js:2 | `le`: expanding keeps every child and adds one |
| HashTrie.PutThenRemove | swagger/swagger-ui-standalone-preset.js:2 | setting and then removing an absent key gives the same bindings back |
| Bits.PopcountIsRank | swagger/swagger-ui-standalone-preset.js:2 | `de`: the parallel bit count equals the number of set bits, for every 32-bit word |
| Bits.IndexIsRank | swagger/swagger-ui-standalone-preset.js:2 | a child's index, the bit count below its bit, is the number of children before it |
| Bits.SlotsDecide | swagger/swagger-ui-standalone-preset.js:2 | hashes that agree in all seven five-bit slices are equal |
| TrieLoops.ExpandNodes | swagger/swagger-ui-standalone-preset.js:2 | the loop of `le` computes the expansion |
| TrieLoops.PackNodes | swagger/swagger-ui-standalone-preset.js:2 | the loop of `fe` computes the packing |
| TrieLoops.CreateNodes | swagger/swagger-ui-standalone-preset.js:2 | the loop of `ce` computes the creation |
| TrieLoops.SpliceIn | swagger/swagger-ui-standalone-preset.js:2 | `ve` copies an array with one element inserted |
| TrieLoops.SpliceOut | swagger/swagger-ui-standalone-preset.js:2 | `Le` copies an array with one element removed |
| Utf8.Encode | swagger/swagger-ui-standalone-preset.js:2 | `q`: for limit zero the bytes of all code points it reads; for any other limit those of the first k, within the limit if k > 0, where one code point more would exceed it |
| Utf8.Decode | swagger/swagger-ui-standalone-preset.js:2 | `D`: decodes the bytes from start up to end, or to the end of the buffer, and nothing if the window is empty; joined in chunks of 4096 |
| Utf8.DecodeAfterEncode | swagger/swagger-ui-standalone-preset.js:2 | decoding an encoded string gives the string back exactly if it is well-formed UTF-16 |
| Utf8.EncodeAfterDecode | swagger/swagger-ui-standalone-preset.js:2 | decoding always yields well-formed UTF-16; encoding again gives the bytes back exactly if they are valid UTF-8, and otherwise two bytes more for each replaced one |
| Utf8.ValidIsEncoding | swagger/swagger-ui-standalone-preset.js:2 | the grammar of RFC 3629, section 4, describes exactly what the encoder can produce |
| Utf8.StepIsGrammar | swagger/swagger-ui-standalone-preset.js:2 | the decoder accepts at each step exactly the characters of that grammar, so overlong and surrogate forms are rejected |
| Utf8.StepOfPoint | swagger/swagger-ui-standalone-preset.js:2 | a decoder step undoes the encoding of any scalar value, whatever follows |
| Utf8.PointOfStep | swagger/swagger-ui-standalone-preset.js:2 | encoding what a decoder step accepted gives its bytes back |
| Utf8.PointIsNumber | swagger/swagger-ui-standalone-preset.js:2 | the bytes and the code units of a code point stand for its number, by the tables of RFC 3629 and RFC 2781, and the bytes are one character of the grammar |
| Utf8.DecodedByGrammar | swagger/swagger-ui-standalone-preset.js:2 | decoding reads one character of the grammar after the other as the code units of its number, and FFFD for a byte that begins none |
| Utf8.FittingIsLongestPrefix | swagger/swagger-ui-standalone-preset.js:2 | with a limit, the encoder writes the longest prefix of whole characters that fits |
| Utf8.LosesOnlyAHeldLead | swagger/swagger-ui-standalone-preset.js:2 | every unpaired surrogate is encoded as the replacement character exactly if the string does not end in a held second lead |
| Utf8.LostLeadExample | swagger/swagger-ui-standalone-preset.js:2 | a string whose last unpaired surrogate is not encoded |
| Base64.FromByteArray | swagger/swagger-ui-standalone-preset.js:2 | `fromByteArray`: encoding in chunks of 16383 bytes is the encoding of RFC 4648, section 4 |
| Base64.CharIsTable | swagger/swagger-ui-standalone-preset.js:2 | the encoding table is the alphabet of RFC 4648, table 1 |
| Base64.ValueIsTable | swagger/swagger-ui-standalone-preset.js:2 | the decoding table inverts it, reads - and _ as + and /, and any other character as zero |
| Base64.GroupIsNumber | swagger/swagger-ui-standalone-preset.js:2 | four characters in base 64 are the three bytes in base 256 |
| Base64.LastTwoIsNumber | swagger/swagger-ui-standalone-preset.js:2 | two last bytes, filled up with two zero bits, are three characters and one padding character |
| Base64.LastOneIsNumber | swagger/swagger-ui-standalone-preset.js:2 | one last byte, filled up with four zero bits, is two characters and two padding characters |
| Base64.ToByteArray | swagger/swagger-ui-standalone-preset.js:2 | `toByteArray` on every string, valid or not, with the two ways it throws |
| Base64.DecodedQuanta | swagger/swagger-ui-standalone-preset.js:2 | any four characters stand for three bytes by their values; a whole quantum that starts with padding yields two zero bytes and takes the place of the quantum before it |
| Base64.DecodeAfterEncode | swagger/swagger-ui-standalone-preset.js:2 | decoding an encoding gives back every byte array |
| Base64.EncodeAfterDecode | swagger/swagger-ui-standalone-preset.js:2 | encoding a decoding gives back exactly the canonical strings |
| Base64.ByteLengthIsLength | swagger/swagger-ui-standalone-preset.js:2 | `byteLength` is the decoded length whenever decoding succeeds, which it does exactly for lengths divisible by four that do not start with the padding character |
| Base64.PaddingOnlyExample | swagger/swagger-ui-standalone-preset.js:2 | a string of padding alone, for which `byteLength` is negative and `toByteArray` throws |
| HashBlocks.Hash.Update | swagger/swagger-ui-standalone-preset.js:2 | `update`: the blocks handed on are the whole blocks of all input so far and the buffer starts with the rest |
| HashBlocks.Hash.Digest | swagger/swagger-ui-standalone-preset.js:2 | `digest`: in the end the blocks are those of the input padded as in FIPS 180-4, section 5.1 |
| HashBlocks.HashPieces | swagger/swagger-ui-standalone-preset.js:2 | any sequence of updates and a digest hashes the blocks of the concatenated, padded input |
| HashBlocks.PaddedIs | swagger/swagger-ui-standalone-preset.js:2 | every byte of the padded input: the input, 80, zeros, and the length in bits, most significant byte first |
| HashBlocks.GapIsSmallest | swagger/swagger-ui-standalone-preset.js:2 | the padding has the fewest zeros that end it on a block |
| HashBlocks.PaddedIsWhole | swagger/swagger-ui-standalone-preset.js:2 | the padded input is a whole number of blocks |
| HashBlocks.PaddingIsInjective | swagger/swagger-ui-standalone-preset.js:2 | different inputs are padded differently |
| HashBlocks.BlocksJoin | swagger/swagger-ui-standalone-preset.js:2 | the blocks and the rest make up the input |
| MergeSort.Sort | swagger/swagger-ui-standalone-preset.js:2 | the recursive sort in place computes the specified order |
| MergeSort.InsertionSort | swagger/swagger-ui-standalone-preset.js:2 | the insertion loop in place, for short arrays |
| MergeSort.Merge | swagger/swagger-ui-standalone-preset.js:2 | the merge loop into the target array |
| MergeSort.SortedPermutes | swagger/swagger-ui-standalone-preset.js:2 | the result is a permutation for every comparator |
| MergeSort.SortedStable | swagger/swagger-ui-standalone-preset.js:2 | for a total preorder the result is ordered and keeps the order of ties |
| MergeSort.SortsStably | swagger/swagger-ui-standalone-preset.js:2 | in the comparator's own results: no element stands before one it compares greater than, ties keep their order, and the result is a permutation |
| MergeSort.StableSortIsUnique | swagger/swagger-ui-standalone-preset.js:2 | no other sequence is an ordered and stable rearrangement |

## Left out

- gRPC transport, generated protobuf code, HTTP handlers, mocks and `main` programs. A stream is a queue of responses that may fail at any time.
- Configuration, logging, OpenTelemetry metrics and health checks.
- CSV reading, JSON encoding, float parsing, the wall clock and UUID generation. They are partial functions, instants and fresh ids.
- `MaxInFlight`, message filters, priorities and the `consumers` map. They are declared, but the delivery path never reads them, so nothing is claimed about them.
- Aliasing of message objects. The store keeps pointers; the model keeps values, so a caller that changes a message after storing it is not modelled.
- Locks and the Go memory model. Each locked method is one step.
- MemoryStorages.MemoryStorage.GetGPUTelemetry: the order of records with equal timestamps is not stated, because the library sort is not stable.
- SubscriberService.Deliver: the loop is stated for a given number of rounds; its end by the stream's context, and the registration before it, are steps of Pipeline.
- Streamers.Streamer.CollectAndProcess: what happens to a batch after it is taken is not modelled; the cursor has moved even if the stream to the queue cannot be opened.
- Pipeline.SinkInOrderAtMostOnce: one collector; other subscribers act on the same store but have no sinks of their own. Stopping the collector, which clears its storage, is not a step.
- HashBlocks.Hash.Digest: inputs of fewer than 2^53 bytes, the lengths that JavaScript numbers represent exactly; the same holds for HashBlocks.HashPieces. String input and the compression functions are left out, and so is the returned hash.
- HashTrie.RunRefines: maps without an owner id, that is outside `withMutations`. Iteration, the List trie and the hash functions for JavaScript values are left out; the hash is an arbitrary function of the key.
- TrieLoops.CreateNodes: the loop hands an owner id of its own to the updates, so the program changes the nodes the loop itself made in place; the model makes new nodes instead, with the same bindings.
- MergeSort.SortedStable: comparators are pure functions with integer results.
- Base64.ToByteArray: characters are Unicode characters rather than UTF-16 units, which makes no difference, as both are unknown to the table beyond ASCII. The loop that builds the table is replaced by the ranges of RFC 4648, table 1.
- Of module 8764, everything but the encoder and the decoder.
- The rest of the Swagger bundle, which is user interface.
