# VoloDB request path

A Dafny model of VoloDB's request path, with proofs of what it keeps and promises.

A client frames operations and sends them. A transport worker of the server drains its queue of
(identity, frame) pairs, decodes them into transaction tuples and scatters the tuples over the
executors, one heap list per executor, handed over by raw pointer. An executor opens one NDB
transaction per tuple, adds the operations one by one, gives up at the first bad one, and prepares
the commit asynchronously. It waits for the callbacks whenever 1024 transactions are in flight and
at the end of a batch, and only then frees the lists. Replies go through a sink back to the worker,
and from there to the client.

## How the model is built

- The wire format: `Wire` (varints, tags, fields, and the plain "read one field, apply it" parser),
  `ColumnCodec`, `FrameCodec`, `ResultCodec`, `OperationCodec` (messages as values), `WireImages` (what they are
  byte for byte). `CodedStreams`,
  `FrameProto`, `ColumnProto` and `ResultProto` are the generated classes: parsing in place with
  expected-tag gotos, caching sizes, serialising from cached sizes, each proved against the value codec.
  A repeated message field owns its elements; they are kept by value in the parent's `fields`, and
  their cached sizes in a tree beside it.
- Frames: `Messages`, `FrameBuilding`, `FrameDecoding`, `ClientExecution`. The decoder is written for any
  parsers (`Parsers`); `PROTOBUF` are the real ones.
- The server, as imperative code over live objects: `Transport`, `MessageProcessing`, `StoreWorkers`,
  `Execution`, `GetPlanning`, `TableCreation`, `TableInfoCaching`. `NdbTables` and `TableIntegrity`
  are the tables.
- The server, as a state machine whose steps interleave in any order: `Pipeline`, with the proofs in
  `PipelinePlaces`, `PipelineReplies`, `PipelineSafety`, `PipelineProgress`, `PipelineOutcomes` and
  `PipelineReads`. It shares with the imperative code what a tuple does (`TupleRuns`, `TupleCrashes`), how the
  parts of messages are paired and decoded (`Requests`) and how tuples are drawn. `BatchRefinements` and
  `WorkerRefinements` prove that the imperative executor's batch and the worker's round are runs of it.
- What it comes to: `Commits` for the rows, `FramePromises` for atomic frames, `EndToEnd` from a client's call to its Results.

Where the code reads what is not there, which C++ leaves undefined, methods return `crashed` and the
state machine stops; nothing is promised after that.

A `hide` statement at the head of a proof keeps bodies it does not need away from the solver.

## What is taken for granted

- Protocol Buffers: the primitives of the Encoding guide ("Base 128 Varints", "Message Structure", "Last
  One Wins"). The library's streams are not part of this model; `CodedStreams` states what they read.
- ZeroMQ (RFC 28/REQREP, RFC 30/PIPELINE): whole multipart messages, first in first out per sender.
- NDB: a table with operations applied in order, a commit that is all or nothing, a callback per
  prepared transaction from inside a poll, polls that report something in the end. `equal` refuses a
  column that cannot be bound or is bound already, `setValue` one that is unknown or in the key. Everything
  else it answers is arbitrary, and so are MySQL's answers, `rand()` and the order in which the threads run.
  Between transactions the order of commits is that of their callbacks.
- A wire message is smaller than 2 GiB where it is written, as the library demands.

## What the code does that one may not expect

- Atomic frames: the project's README promises that all operations are added or none. A frame of set, get and
  delete operations keeps this if all of them have a store and decode, and no scan names a column its table does
  not have. An item that does not decode is left out,
  and the others are committed with a reply of success (`HalfAFrame`); a definition takes effect and is answered
  at once (`MixedFrame`). `PromiseIsKeptExactlyWhen` says of every frame whether it keeps the promise.
- A key lookup always yields one record, also when there is no row with the key; `GetIsFilter` says so.
- The cache can keep a dropped store; `LagsExactlyWhenTimely`, `StaleForGood` and `CacheCanBeStale` say when
  and how long.
- A key flag of a column counts when it is present, even if it is false; for the transaction hint it must be true.
- Databases can be framed to be created or dropped, but such items are not decoded. In a frame that is not
  atomic an item that does not decode leaves an empty tuple, which gets no reply.
- A variable length of 255 stays 255, while a smaller one becomes 256.
- The reply "Failed to run definition operation." cannot occur: all four kinds of definition have a result.
- A set, get or delete need not have a `store_info`, and the executor reads its first one. Such a request, even one
  of no bytes, stops the whole server; so does a filtered scan that names a column its table does not have.
  `CrashesExactlyWhenUnsafe` and `CrashesOnUnknownColumns` say which requests can do that.
- The worker takes parts two by two. After a client's message of several parts it pairs them wrongly: it reads past
  the end of an odd number of them, where `DecodeWithIdentities` crashes, and answers others to the wrong
  identity. `PairsAreMeantExactlyWhen` says when it does not.
- A client call with no operations and no identifiers that is not atomic reads the first of no identifiers;
  `Execute` crashes there.
- The reply's cells have NDB's own type numbers. One that the protocol does not know is not set for the client.

## Model

| member | source | states |
|---|---|---|
| FramePromises.PromiseIsKeptExactlyWhen | volodb-common/Frame/FrameDecoder.cpp:58-147 | Seen from a received atomic frame alone: every run, whatever is answered while the tables have the columns asked for, ends with one reply that says whether all its items took effect or none, exactly when no tuple message can crash the executor and the frame is refused as a whole before any definition, or is operations only or one definition alone with no item lost |
| FramePromises.WholeOperationsKeep | volodbserver/Store/NDBMessageExecutor.cpp:120-244 | A non-empty atomic frame of set, get and delete operations with stores, all of which decode, keeps the promise |
| FramePromises.KeptInTheDatabase | volodbserver/Store/NDBMessageExecutor.cpp:238-241 | Where it is kept by a frame without definitions, the database has all effects or none, as the reply says |
| FramePromises.HalfAFrame | volodb-common/Frame/FrameDecoder.cpp:129-133 | A set and an item that does not parse: the set is committed with a reply of success, and the promise is broken |
| FramePromises.MixedFrame | volodbserver/Store/NDBMessageExecutor.cpp:139-162 | A definition and an operation get two replies, and the definition stays whatever becomes of the operation |
| EndToEnd.EveryClientGetsItsResults | volodb-client/Executor/Executor.cpp:111-131 | At rest the delegate of each client has received the Results of all its tuples, each once and no others, in whatever order the workers' messages arrived |
| EndToEnd.AtomicCallIsAnswered | volodb-client/Executor/Executor.cpp:33-46 | From a client's atomic call to its delegate: it receives a Result that names the call and has no error code exactly when the call's transaction was committed with all its operations |
| PipelineSafety.EveryTupleIsInOnePlace | volodbserver/Store/Store.cpp:340-353 | In every reachable state, for any numbers of workers and executors, each decoded tuple occurs exactly once: in one executor's queue, batch or pending commits, or among those that are out of them, finished or the one that crashed the server; and the tuples are exactly those of the received requests, in order |
| PipelineSafety.RepliesGoToTheSender | volodbserver/Store/NDBMessageExecutor.cpp:133-137 | While every client message is one frame, every reply ever put into a sink carries the identity of a client, and one of its messages holds the tuple that is answered |
| PipelineSafety.RepliesGoToTheirPair | volodb-common/Frame/FrameDecoder.cpp:159-163 | For any client messages, a reply carries the identity of the pair of parts that holds the tuple it answers |
| PipelineSafety.ThreePartsAreMisaddressed | volodb-common/Frame/FrameDecoder.cpp:159-163 | After a client message of three parts a worker holds a pair whose tuples are answered to the message's second part |
| Requests.PairsAreMeantExactlyWhen | volodb-common/Frame/FrameDecoder.cpp:159-163 | The worker reads the pairs the clients meant, and not past the last part, exactly when every message is one frame |
| PipelineSafety.FinishedTuplesAreAnswered | volodbserver/Store/NDBMessageExecutor.cpp:120-244 | A finished tuple has had, counting the callback's reply, one reply per definition it ran and one for everything else it ran; the tuple that crashed the server has had those to its definitions |
| PipelineSafety.SinksKeepOrder | volodbserver/Transport/ServerTransport.cpp:156-164 | What a worker has forwarded, followed by what waits in its sink, is what its executors replied, whole and in order |
| PipelineSafety.InFlightIsBounded | volodbserver/Store/NDBMessageExecutor.cpp:246-282 | At every step of any run an executor has at most 1024 transactions in flight, and prepared = completed + pending |
| PipelineSafety.FlushesAtExactly1024 | volodbserver/Store/NDBMessageExecutor.cpp:262-282 | An executor takes the tuples of its work list in order, and begins to wait exactly when 1024 transactions are in flight |
| PipelineSafety.RepliesTakeTheExecutorsSink | volodbserver/Store/Store.cpp:407-430 | Executor e answers through the sink of worker e modulo the number of workers, and through no other |
| PipelineSafety.PendingTuplesAreLive | volodbserver/Store/NDBMessageExecutor.cpp:47-58 | The tuple a pending callback points into is in a list that is still live and adopted by the executor of the transaction |
| PipelineSafety.PointersHaveOneOwner | volodbserver/Store/Store.cpp:316-338 | A live list pointer is in one queue or one batch of one executor, once; whatever is queued or adopted is live |
| PipelineSafety.LivePointersAreHeld | volodbserver/Store/Store.cpp:316-338 | A list pointer is live exactly when it is in some executor's queue or batch |
| PipelineSafety.NothingLeaksAtRest | volodbserver/Store/NDBMessageExecutor.cpp:248-295 | At rest every list has been freed |
| PipelineSafety.DatabaseIsTheCommits | volodbserver/Store/NDBMessageExecutor.cpp:238-241 | The database is what the ended transactions made of it, one after the other in the order of their callbacks, each ended tuple once and with all its operations or none |
| PipelineOutcomes.TheLastDeleteIsSeen | volodbserver/Store/NDBMessageExecutor.cpp:496-523 | In every reachable state, when the last commit ended with a delete its store has no row with the key |
| PipelineOutcomes.TheLastSetIsSeen | volodbserver/Store/NDBMessageExecutor.cpp:455-493 | And when it ended with a set, the row with the key and the last values is there |
| PipelineOutcomes.TheReplyTellsTheOutcome | volodbserver/Store/NDBMessageExecutor.cpp:43-117 | In every reachable state a finished tuple of set, get and delete operations has had exactly one reply, to its client, which lacks an error code exactly when its transaction was committed |
| PipelineOutcomes.TablesStaySound | volodbserver/Store/NDBMessageExecutor.cpp:455-523 | In every reachable state rows have all their columns and different keys, so that GetIsFilter applies, if they had at the start and NDB commits only operations that fit |
| PipelineReads.CommittedGetsAreFilters | volodbserver/Store/NDBMessageExecutor.cpp:72-101 | In every reachable state the reply to a committed transaction shows, cell by cell, for each GET the rows with its keys, or with its values if it gives no keys or too many, in the database that earlier transactions and the operations before it have left; a key lookup without a row excepted |
| PipelineReads.TransactionFinds | volodbserver/Store/NDBMessageExecutor.cpp:526-602 | The same for one transaction on any sound database |
| PipelineReads.ReadsItsOwnWrite | volodbserver/Store/NDBMessageExecutor.cpp:72-101 | A GET by the whole key right after a set with that key, in one transaction, finds one row, with the key and the last values that were set |
| PipelineOutcomes.OnlyCrashingRunsCrash | volodbserver/Store/NDBMessageExecutor.cpp:167-202 | The server has crashed exactly when it has executed a tuple whose run, as answered, crashes, or a worker has read past its parts, which needs a client message that is not one frame |
| PipelineOutcomes.SafeRequestsDoNotCrash | volodbserver/Store/NDBMessageExecutor.cpp:167-202 | While client messages are single frames, hold no operation without store_info that its executor can get to, and scan no unknown column, the server does not crash |
| PipelineOutcomes.UnsafeTuplesCanCrash | volodbserver/Store/NDBMessageExecutor.cpp:167-202 | Some answers with all columns known make an executor crash on its next tuple exactly when the tuple is unsafe |
| PipelineSafety.StepKeepsOrder | volodbserver/Store/NDBMessageExecutor.cpp:246-295 | Every step of every thread keeps the whole invariant: places, pointers, counters, replies, requests, database |
| PipelineSafety.ReachableIsInOrder | volodbserver/Store/Store.cpp:407-449 | The invariant holds after any run, for any random numbers, answers and interleaving |
| PipelineSafety.NeverStuck | volodbserver/Store/Store.cpp:431-449 | While the server has not crashed and a request, a list, a tuple or a reply is left, some step other than a new request is possible |
| PipelineProgress.StepsGoDown | volodbserver/Store/NDBMessageExecutor.cpp:297-309 | Every step other than a new request lowers a well-founded rank |
| PipelineProgress.ComesToRest | volodbserver/Store/NDBMessageExecutor.cpp:297-309 | From any state in order a run without new requests ends in a crash or comes to rest, all tuples finished, all queues and batches empty, all replies forwarded |
| PipelinePlaces.StepKeepsLanes | volodbserver/Store/NDBMessageExecutor.cpp:246-295 | No step loses or repeats a tuple or a list pointer or lets a counter go wrong |
| PipelinePlaces.ReceiveLaneOk | volodbserver/Store/NDBMessageProcessor.cpp:206-220 | Scattering puts each new ticket into the queue of the executor it drew, in one new list at a new address |
| PipelinePlaces.TakeLaneOk | volodbserver/Store/NDBMessageExecutor.cpp:252-260 | Taking a batch moves its pointers from queued to adopted and its tuples to the work list |
| PipelinePlaces.ExecuteLaneOk | volodbserver/Store/NDBMessageExecutor.cpp:262-282 | Executing a tuple makes it pending or takes it out of the executor, and flushes at exactly 1024 |
| PipelinePlaces.CompleteLaneOk | volodbserver/Store/NDBMessageExecutor.cpp:43-117 | A callback takes one transaction out of the pending ones |
| PipelineReplies.StepKeepsReplies | volodbserver/Store/NDBMessageExecutor.cpp:726-742 | No step loses, repeats, invents or redirects a reply |
| PipelineReplies.CompleteKeepsDatabase | volodbserver/Store/NDBMessageExecutor.cpp:238-241 | A transaction that ends takes effect with all operations of its tuple, or not at all |
| TupleRuns.AllOrNothing | volodbserver/Store/NDBMessageExecutor.cpp:120-244 | For a tuple of set, get and delete operations: exactly one reply; it lacks an error code exactly when all operations took effect in order, and otherwise the database is unchanged; a run that crashes leaves no reply and no effect |
| TupleRuns.DefinitionsAreCarriedOut | volodbserver/Store/NDBMessageExecutor.cpp:139-162 | A message that creates or drops a database or a store is answered at once, without error code exactly when its query ran and succeeded, and the loop goes on with the transaction as it was; a store without a column of either key flag is refused |
| TupleRuns.OperationsAreAddedOrEndIt | volodbserver/Store/NDBMessageExecutor.cpp:164-235 | A set, get or delete is added without a reply or ends the loop, and when it is which; any other message always ends it |
| TupleRuns.RefusalsTellWhy | volodbserver/Store/NDBMessageExecutor.cpp:211-229 | The last reply of any tuple whose loop is left: NDB's code and, at its end, NDB's text if a transaction was started by then, and otherwise code 0 and a fixed text |
| TupleRuns.RefusalTexts | volodbserver/Store/NDBMessageExecutor.cpp:211-229 | How the two texts begin and end |
| TupleRuns.CallbackReplies | volodbserver/Store/NDBMessageExecutor.cpp:43-101 | The callback's reply: NDB's code and text and no results when the transaction was aborted, and otherwise one result per operation with its type's number and the rows of a GET |
| TupleRuns.ReplyCount | volodbserver/Store/NDBMessageExecutor.cpp:120-244 | Replies = messages that create or drop a database or a store in the processed prefix, plus one if any other message was processed and the run does not crash |
| TupleRuns.TwoDropsTwoReplies | volodbserver/Store/NDBMessageExecutor.cpp:139-162 | Two stores dropped by one tuple get two replies, each of which says how its own query went |
| TupleRuns.PureTupleGetsOneReply | volodbserver/Store/NDBMessageExecutor.cpp:120-244 | One reply to a tuple without definitions, none to an empty tuple or one that crashes the executor |
| TupleRuns.NoErrorBeforeCommit | volodbserver/Store/NDBMessageExecutor.cpp:204-241 | When the transaction is prepared, all earlier replies are answers to definitions |
| TupleRuns.RepliesCarryTheId | volodbserver/Store/NDBMessageExecutor.cpp:708-724 | Every reply names the tuple's transaction |
| TupleRuns.NothingAfterARefusal | volodbserver/Store/NDBMessageExecutor.cpp:204-235 | A refusal at message k discards the operations before it and processes nothing after it |
| TupleRuns.RunsWell | volodbserver/Store/NDBMessageExecutor.cpp:120-244 | The shape of every state of the message loop: reply count, operations, open transaction |
| TupleRuns.CommittedReplyIsReadable | volodbserver/Store/NDBMessageExecutor.cpp:72-101 | A committed tuple's Result is complete and can be serialised and read back exactly when the rows its GETs found can |
| TupleRuns.RowsAreReadableExactlyWhen | volodbserver/Store/NDBMessageExecutor.cpp:31-42 | The rows found are readable exactly when there are none or all columns of the table have a type number the protocol knows |
| GetPlanning.CellReadsBack | volodbserver/Store/NDBMessageExecutor.cpp:36-40 | What the client reads of a cell: the column's name, its type unless the protocol does not know the number, which ends up among the unknown fields, and the value in the row |
| TupleCrashes.EndsUnlessCrashed | volodbserver/Store/NDBMessageExecutor.cpp:128-235 | A run comes to its end, after all messages or a refusal, exactly when it does not crash; every set, get and delete it has processed has a store_info |
| TupleCrashes.CrashesExactlyWhenUnsafe | volodbserver/Store/NDBMessageExecutor.cpp:167-202 | From the request alone: some answers crash the executor, even with all columns known, exactly when an operation without store_info comes before any message that is refused in any case |
| TupleCrashes.EmptySetCrashes | volodbserver/Store/NDBMessageExecutor.cpp:167-170 | A set operation without any bytes parses, and its run crashes whatever is answered |
| Execution.ExecuteTuple | volodbserver/Store/NDBMessageExecutor.cpp:120-244 | The message loop over a live tuple: the replies, the open transaction and the prepared operations of the specified run, or its crash; the tuple's identity is never sent itself |
| Execution.ExecuteMessage | volodbserver/Store/NDBMessageExecutor.cpp:129-236 | One pass of the message loop: a definition leaves transaction and operations alone, a message that is no operation stops it; only fresh copies of the identity are sent, a transaction is closed on refusal, and it crashes exactly where the code reads a store_info or a column that is not there |
| Execution.ExecuteDefinition | volodbserver/Store/NDBMessageExecutor.cpp:313-443 | The query that is run for each definition, if any, and the reply to it |
| Execution.ReplyWithResult | volodbserver/Store/NDBMessageExecutor.cpp:726-742 | Puts identity and frame into the sink, in this order, as one two-part message and leaves the identity message empty |
| Execution.Callback | volodbserver/Store/NDBMessageExecutor.cpp:43-117 | Releases its state once, copies the identity of a tuple that is still there, closes the transaction and replies |
| Execution.BuildResult | volodbserver/Store/NDBMessageExecutor.cpp:72-99 | The success branch builds the specified Result |
| Execution.EndTransaction | volodbserver/Store/NDBMessageExecutor.cpp:43-117 | NDB commits all or nothing and calls back once for a pending transaction |
| Execution.PollNdb | volodbserver/Store/NDBMessageExecutor.cpp:297-309 | Any number of pending transactions end, in any order and way; any number of polls in between report none |
| Execution.WaitForTransactionsToComplete | volodbserver/Store/NDBMessageExecutor.cpp:297-309 | The wait loop ends with nothing pending |
| Execution.ExecuteList | volodbserver/Store/NDBMessageExecutor.cpp:262-282 | Fewer than 1024 transactions are pending after each list, and each is flushed at 1024; crashes exactly when a tuple does |
| Execution.ExecuteBatch | volodbserver/Store/NDBMessageExecutor.cpp:246-295 | Adopts each pointer once, executes all tuples in order, ends with nothing open or pending, frees the lists last; every prepared transaction completed once, the sink got exactly the replies of the events, and the events follow the batch loop; it crashes exactly when a tuple does |
| Execution.BatchReplyCount | volodbserver/Store/NDBMessageExecutor.cpp:246-295 | After a batch the sink got as many replies as the runs call for, and the ended transactions are the prepared ones |
| BatchRefinements.BatchIsARun | volodbserver/Store/NDBMessageExecutor.cpp:246-309 | What ExecuteBatch leaves behind is a run of one executor's own steps of the state machine: take, execute, wait, complete, flush, finish, with the same replies in order and the same database |
| BatchRefinements.EventsAreSteps | volodbserver/Store/NDBMessageExecutor.cpp:246-309 | The same for any prefix of the batch, event by event |
| WorkerRefinements.WorkerRoundIsARun | volodbserver/Transport/ServerTransport.cpp:139-166 | What a worker's round leaves behind is a run of its own receive and forward steps, down to which tuples each executor's queue gets; where it crashes the run does |
| Execution.Ndb.StartTransaction | volodbserver/Store/NDBMessageExecutor.cpp:753-797 | Never more than 1024 open transactions: starting one needs a free one |
| Execution.Ndb.ExecuteAsynchPrepare | volodbserver/Store/NDBMessageExecutor.cpp:238-241 | Adds a callback state for a live tuple |
| StoreWorkers.ProcessMessages | volodbserver/Store/Store.cpp:340-353 | Each executor's queue gets one new list with exactly the decoded tuples that drew it, in order, or nothing; an odd number of parts crashes before anything is sent |
| StoreWorkers.SendTaskToExecutor | volodbserver/Store/Store.cpp:316-338 | Hands over a fresh, unadopted pointer |
| StoreWorkers.SendTasks | volodbserver/Store/Store.cpp:347-351 | Every bucket is sent to its executor, in whatever order the map has them |
| StoreWorkers.ExecutorRound | volodbserver/Store/Store.cpp:431-449 | One round of an executor: up to 1024 lists, in order, each adopted and freed; the books balance; crashes exactly when a tuple does |
| StoreWorkers.WorkerRound | volodbserver/Transport/ServerTransport.cpp:139-166 | One round of a transport worker: all queued parts are decoded in pairs and scattered, all waiting replies leave whole and in order; an odd number of parts crashes |
| Transport.ReceiveQueuedMessages | volodbserver/Utils/TransportUtils.cpp:14-42 | Drains the queue in order, or exactly readLimit parts |
| Transport.ForwardReplies | volodbserver/Transport/ServerTransport.cpp:156-164 | Waiting replies leave the sink through the worker socket, whole and in order |
| Transport.ZmqSocket.Send | volodbserver/Store/NDBMessageExecutor.cpp:738-739 | Sending hands over the content and leaves the message empty |
| MessageProcessing.ProcessForExecutor | volodbserver/Store/NDBMessageProcessor.cpp:206-220 | The buckets are exactly the non-empty shares of the executors |
| MessageProcessing.ScatterIsPartition | volodbserver/Store/NDBMessageProcessor.cpp:196-220 | For any random numbers: buckets non-empty, keys in range, each a subsequence in order, together all tuples |
| MessageProcessing.AnyChoicesCanBeDrawn | volodbserver/Store/NDBMessageProcessor.cpp:206-220 | Whatever executors the tuples are to go to, some random numbers send them there |
| MessageProcessing.GetHint | volodbserver/Store/NDBMessageProcessor.h:41-57 | Slots 0..count-1 point to the values of the flagged columns in order, with their lengths, slot count is the terminator, the array is filled exactly |
| MessageProcessing.DistributionKeysAreFlaggedTrue | volodbserver/Store/NDBMessageProcessor.h:58-68 | The flagged columns are those whose flag is present and true, each once and in order |
| MessageProcessing.GetNoDistributionKeyIndexes | volodbserver/Store/NDBMessageProcessor.h:58-68 | Counts the columns flagged true |
| MessageProcessing.HintFor | volodbserver/Store/NDBMessageExecutor.cpp:753-797 | A hint is passed exactly when a column is flagged |
| GetPlanning.GetIsFilter | volodbserver/Store/NDBMessageExecutor.cpp:526-602 | By the request's own number of keys: an accepted GET that gives some, and no more than the table has, finds the rows with these keys, and any other GET the rows with its values, all of them and in scan order; a lookup by the whole key finds what is in its buffer when there is no such row |
| GetPlanning.Get | volodbserver/Store/NDBMessageExecutor.cpp:526-602 | A lookup exactly for as many keys as the table has, a scan of the prune index for fewer but some, a filtered scan otherwise, with the keys or else the values as equalities; when planning crashes; null in all other cases |
| GetPlanning.GetIsAcceptedExactlyWhen | volodbserver/Store/NDBMessageExecutor.cpp:526-602 | Which GETs are accepted, from the columns and flags of the table and NDB's answers: different primary columns for a lookup, different distribution columns for a prune scan, known columns and no refusal for a filter |
| GetPlanning.SetIsAcceptedExactlyWhen | volodbserver/Store/NDBMessageExecutor.cpp:455-493 | Which sets are, column by column |
| GetPlanning.DeleteIsAcceptedExactlyWhen | volodbserver/Store/NDBMessageExecutor.cpp:496-523 | Which deletes are, column by column, whatever values they have |
| GetPlanning.RowsArePlacedByDistributionKey | volodbserver/Store/NDBMessageExecutor.cpp:554-568 | The partition of a row is the hash of its distribution columns in the order of declaration |
| NdbTables.FilterFinds | volodbserver/Store/NDBMessageExecutor.cpp:645-671 | A filter finds every row with all the given values and no other, each once, in the order of the table |
| NdbTables.PrimaryKeysAreFlagged | volodbserver/Store/NDBMessageExecutor.cpp:541-553 | The primary keys are the names of the columns flagged so, in order |
| GetPlanning.SetEqual | volodbserver/Store/NDBMessageExecutor.cpp:606-643 | Succeeds exactly when the columns are different and may be bound, and then has set all of them |
| GetPlanning.SetEqualValue | volodbserver/Store/NDBMessageExecutor.cpp:645-671 | Sets all conditions of a filtered scan or is refused; crashes on a column the table does not have, unless an earlier condition was refused |
| GetPlanning.CrashesOnUnknownColumns | volodbserver/Store/NDBMessageExecutor.cpp:656-664 | Some answers of NDB crash the planning exactly when the GET gives no keys, or more than the table has, and a value for a column the table does not have |
| GetPlanning.LookupInAnEmptyTable | volodbserver/Store/NDBMessageExecutor.cpp:84-97 | In an empty table a key lookup yields a record where the filter yields none |
| GetPlanning.MatchingRowsAreVisited | volodbserver/Store/NDBMessageExecutor.cpp:554-568 | A prune scan misses no matching row |
| GetPlanning.OnePartitionIffAllBound | volodbserver/Store/NDBMessageExecutor.cpp:554-568 | A prune scan visits a single partition exactly when all partitioning columns are bound |
| GetPlanning.FullKeyIsBound | volodbserver/Store/NDBMessageExecutor.cpp:541-553 | As many different key columns as the table has are all of them |
| GetPlanning.FirstMatchIsFilter | volodbserver/Store/NDBMessageExecutor.cpp:77-97 | With a full key a lookup's record is all matching rows |
| GetPlanning.AddRecordToResult | volodbserver/Store/NDBMessageExecutor.cpp:29-42 | A record becomes one more row: a cell for every table column in order, with its name, type and value and no key flags |
| GetPlanning.AddRecords | volodbserver/Store/NDBMessageExecutor.cpp:84-97 | A scan is read to its end and a lookup adds exactly one record; the rows show the records cell by cell |
| GetPlanning.Set | volodbserver/Store/NDBMessageExecutor.cpp:455-493 | A set is added exactly when NDB has no objection, its key columns are different ones of the table's key, and its values are for other columns of the table |
| GetPlanning.Delete | volodbserver/Store/NDBMessageExecutor.cpp:496-523 | A delete is added exactly when NDB has no objection and its key columns are different ones of the table's key |
| GetPlanning.AcceptedSetChangesOneKey | volodbserver/Store/NDBMessageExecutor.cpp:455-493 | After a set NDB accepted the row with the key has the last value given for each column and its other columns as before, and the rows with other keys are as before |
| TableIntegrity.WriteKeepsTable | volodbserver/Store/NDBMessageExecutor.cpp:455-493 | A set with the whole key keeps rows whole and keys different |
| TableIntegrity.EffectsKeepDatabase | volodbserver/Store/NDBMessageExecutor.cpp:455-523 | Any sequence of sets and deletes that fit keeps all tables so |
| Commits.CommittedDelete | volodbserver/Store/NDBMessageExecutor.cpp:496-523 | A committed delete leaves of the store it names first exactly the rows that differ from the key in some column, each once and in order, and all other tables alone |
| Commits.CommittedSet | volodbserver/Store/NDBMessageExecutor.cpp:455-493 | After a committed set there is a row with its key and the last value given for each column, its other columns as before, or none but the key's; rows with other keys and all other tables are as before |
| Commits.CommittedLastDelete | volodbserver/Store/NDBMessageExecutor.cpp:120-244 | Whatever a tuple does before a delete: if its one reply lacks an error code there is no row with the key, and else nothing has changed |
| Commits.CommittedLastSet | volodbserver/Store/NDBMessageExecutor.cpp:120-244 | Whatever a tuple does before a set: if its one reply lacks an error code the row is there, and else nothing has changed |
| Commits.SetThenDelete | volodbserver/Store/NDBMessageExecutor.cpp:120-244 | A set and then a delete in one tuple: with the same store and key the rows with other keys are left as they were, with different stores the order makes no difference |
| Commits.EffectsConcat | volodbserver/Store/NDBMessageExecutor.cpp:238-241 | The operations take effect one after the other |
| Commits.EffectsKeepTheRest | volodbserver/Store/NDBMessageExecutor.cpp:238-241 | No table comes, goes or changes its columns, and a store that no set or delete names first is as before |
| TableCreation.CreateTable | volodbserver/Store/NDBMessageExecutor.cpp:334-438 | Without a column with a primary_key flag, or else without one with a distribution_key flag, the store is refused with the text for that; any other gets a text that, for plain names, declares it |
| TableCreation.CreateTableReadsBack | volodbserver/Store/NDBMessageExecutor.cpp:334-438 | For names of plain words the text declares each column of the request in order, with the name of its type and its raised length; the columns with a primary_key flag as primary key; and those with a distribution_key flag as prune index and as partitioning alike |
| TableCreation.KeysAreFlagged | volodbserver/Store/NDBMessageExecutor.cpp:368-376 | The key lists are the names of the columns whose flag is present, true or false, in order |
| TableCreation.PrintColumnList | volodbserver/Store/NDBMessageExecutor.cpp:346-376 | The column lines, and the indexes of the columns whose flags are present |
| TableCreation.PrintNameList | volodbserver/Store/NDBMessageExecutor.cpp:380-388 | Names with commas between and a parenthesis after the last |
| TableCreation.ColumnsRead | volodbserver/Store/NDBMessageExecutor.cpp:346-376 | The column lines read back |
| TableCreation.KeysRead | volodbserver/Store/NDBMessageExecutor.cpp:378-421 | The key clauses read back |
| TableCreation.TypeReads | volodbserver/Store/NDBMessageExecutor.cpp:682-706 | Every type name reads back, two-word names included |
| TableCreation.IntReads | volodbserver/Store/NDBMessageExecutor.cpp:351-361 | Printed lengths read back, negative ones included |
| TableInfoCaching.CacheAgreesAfterAnyRun | volodbserver/Cache/TableInfoCache.cpp:11-55 | With each operation as one step every entry agrees with the dictionary after any run of creates, drops and lookups |
| TableInfoCaching.EntriesAreEarlierAnswers | volodbserver/Cache/TableInfoCache.cpp:25-39 | With lookups split into miss, fetch and write and drops into query and invalidation, every entry is some earlier dictionary answer |
| TableInfoCaching.LagsExactlyWhenTimely | volodbserver/Cache/TableInfoCache.cpp:25-55 | Only a late write, of an answer that is outdated when no drop is left to invalidate it, makes the cache do more than lag behind the drops under way |
| TableInfoCaching.AgreesBetweenDrops | volodbserver/Cache/TableInfoCache.cpp:25-55 | After any run with timely writes the cache agrees with the dictionary whenever no drop is under way |
| TableInfoCaching.StaleEntriesStay | volodbserver/Cache/TableInfoCache.cpp:11-55 | A stale entry stays over every run without its invalidation, a write of its name, or the same table created again |
| TableInfoCaching.StaleForGood | volodbserver/Store/NDBMessageExecutor.cpp:533-539 | A stale entry that no thread is about to touch or past a miss of stays until its store is dropped again or created as it was, since a cached name is not missed |
| TableInfoCaching.LateMissRefreshes | volodbserver/Store/NDBMessageExecutor.cpp:533-536 | A thread that is past its miss can still write the right answer over a stale entry, without another drop |
| TableInfoCaching.CacheCanBeStale | volodbserver/Cache/TableInfoCache.cpp:25-39 | A fetch overtaken by a drop leaves the dropped store in the cache with nobody about to touch it |
| TableInfoCaching.TableInfoCache.GetOrFill | volodbserver/Store/NDBMessageExecutor.cpp:533-539 | A cached entry is returned and nothing changes; on a miss the dictionary's answer, if there is one, is entered and returned, and no other entry changes |
| FrameDecoding.AtomicBuildThenDecode | volodb-common/Frame/FrameDecoder.cpp:41-147 | An atomic frame decodes to one tuple with the frame's ID and its operations in order, those on databases left out |
| FrameDecoding.SeparateBuildThenDecode | volodb-common/Frame/FrameDecoder.cpp:41-147 | A non-atomic frame decodes to one tuple per operation with its own ID; one on a database leaves an empty tuple and the others alone |
| FrameDecoding.Decode | volodb-common/Frame/FrameDecoder.cpp:41-147 | The decoder's loops over live tuples compute the specified tuples, separate and fresh: one for an atomic frame, one per item otherwise, none for bytes that are no frame |
| FrameDecoding.DecodeWithIdentities | volodb-common/Frame/FrameDecoder.cpp:150-171 | Identity and frame are taken two by two; an odd number of parts crashes, since the part after the last is read |
| FrameDecoding.DecodeWithoutIdentities | volodb-common/Frame/FrameDecoder.cpp:150-171 | Frames are taken one by one |
| FrameDecoding.BuiltFrameParses | volodb-common/Frame/FrameBuilder.cpp:26-53 | A built frame parses back to itself |
| FrameBuilding.FrameBuilder.AddFrame | volodb-common/Frame/FrameBuilder.cpp:26-48 | One item with type and data, and its own identifier exactly when the frame has none; unsupported messages change nothing |
| FrameBuilding.FrameBuilder.constructor | volodb-common/Frame/FrameBuilder.cpp:15-19 | An identifier exactly for atomic frames |
| FrameBuilding.GetBytesOfFrameWithMessage | volodb-common/Frame/FrameBuilder.cpp:55-64 | The bytes of a one-item frame |
| Messages.PayloadRoundTrip | volodb-common/Frame/FrameUtils.cpp:14-36 | By type and number: new and dropped stores, sets, gets, deletes and server responses come back from 4 to 9 and their payload, databases and other messages do not, and no other number yields anything |
| ClientExecution.Execute | volodb-client/Executor/Executor.cpp:33-46 | Which calls throw, which one crashes, and the frame that is sent otherwise |
| ClientExecution.ExecuteOne | volodb-client/Executor/Executor.cpp:25-31 | A frame with one item under its own identifier |
| ClientExecution.DidReceiveMessage | volodb-client/Executor/Executor.cpp:111-131 | The server responses among the first messages of the decoded tuples, in order |
| ClientExecution.DeliveredByTuple | volodb-client/Executor/Executor.cpp:111-131 | Tuple by tuple: exactly the results that are a tuple's first message, in order |
| ClientExecution.RepliesReachTheClient | volodb-client/Executor/Executor.cpp:111-131 | Any batch of reply frames reaches the delegate as exactly those Results in arrival order |
| ClientExecution.FlattenToSingleList | volodb-common/Frame/FrameDecoder.cpp:194-208 | The first message of each tuple that has one |
| ClientExecution.FlattenToLists | volodb-common/Frame/FrameDecoder.cpp:174-192 | The messages tuple by tuple |
| FrameCodec.FrameRoundTrip | volodb-common/ProtoBuf/Frame.pb.cc:578-664 | Every well-formed frame comes back from its bytes, presence and order included; an incomplete one is refused |
| FrameCodec.ItemRoundTrip | volodb-common/ProtoBuf/Frame.pb.cc:253-364 | Every well-formed item comes back from its bytes |
| FrameCodec.FrameConcat | volodb-common/ProtoBuf/Frame.pb.cc:738-747 | Parsing two concatenated byte strings gives the later identifier that is there, and all items and unknown fields in order |
| FrameCodec.FrameOnTop | volodb-common/ProtoBuf/Frame.pb.cc:738-747 | Parsing what n writes on top of m is MergeFrom |
| FrameCodec.FrameStaysWellFormed | volodb-common/ProtoBuf/Frame.pb.cc:578-638 | Whatever parses can be written and read again |
| ResultCodec.ResultRoundTrip | volodb-common/ProtoBuf/Result.pb.cc:734-867 | Every well-formed Result tree comes back from its bytes: presence, empty strings and lists, order, negative error codes |
| ResultCodec.ResultConcat | volodb-common/ProtoBuf/Result.pb.cc:971-986 | Parsing two concatenated byte strings gives for each singular field the later one that is there, and all results and unknown fields in order |
| FrameCodec.ItemConcat | volodb-common/ProtoBuf/Frame.pb.cc:449-463 | The same for FrameItem |
| ResultCodec.OperationResultConcat | volodb-common/ProtoBuf/Result.pb.cc:595-604 | The same for OperationResult |
| ResultCodec.RowConcat | volodb-common/ProtoBuf/Result.pb.cc:332-336 | The same for Row |
| ResultCodec.OperationResultRoundTrip | volodb-common/ProtoBuf/Result.pb.cc:441-527 | Every well-formed OperationResult comes back from its bytes |
| ResultCodec.RowRoundTrip | volodb-common/ProtoBuf/Result.pb.cc:218-278 | Every well-formed Row comes back from its bytes |
| ResultCodec.ResultStaysWellFormed | volodb-common/ProtoBuf/Result.pb.cc:734-826 | Whatever parses can be written and read again |
| WireImages.FrameImage | volodb-common/ProtoBuf/Frame.pb.cc:640-664 | What a frame is byte for byte: tags, lengths, order, and nothing for a field that is not there |
| WireImages.ItemImage | volodb-common/ProtoBuf/Frame.pb.cc:334-364 | The same for FrameItem |
| WireImages.ResultImage | volodb-common/ProtoBuf/Result.pb.cc:828-867 | The same for Result |
| WireImages.OperationResultImage | volodb-common/ProtoBuf/Result.pb.cc:507-527 | The same for OperationResult |
| WireImages.RowImage | volodb-common/ProtoBuf/Result.pb.cc:264-278 | The same for Row |
| WireImages.ColumnValueImage | volodb-common/ProtoBuf/Column.pb.cc:1215-1255 | The same for ColumnValue |
| WireImages.ColumnInfoImage | volodb-common/ProtoBuf/Column.pb.cc:793-833 | The same for ColumnInfo |
| WireImages.ManipulationImage | volodb-common/ProtoBuf/ManipulationOperations.pb.cc:587-612 | The same for set, get and delete operations |
| WireImages.StoreDefinitionImage | volodb-common/ProtoBuf/DefinitionOperation.pb.cc:1049-1070 | The same for the creation and the drop of a store |
| WireImages.FrameIsParsedExactlyWhen | volodb-common/ProtoBuf/Frame.pb.cc:761-765 | A frame that is written is parsed exactly when each item has a type and data |
| WireImages.ResultIsParsedExactlyWhen | volodb-common/ProtoBuf/Result.pb.cc:1000-1005 | A Result exactly when it has the transaction's identifier, its operations have types and their cells names and values |
| WireImages.OperationIsDecodedExactlyWhen | volodb-common/ProtoBuf/ManipulationOperations.pb.cc:717-723 | A set or get exactly when its stores have names and its columns names and values |
| WireImages.DefinitionIsDecodedExactlyWhen | volodb-common/ProtoBuf/DefinitionOperation.pb.cc:1162-1170 | A new store exactly when it has a name and its columns names and types |
| WireImages.FrameTypesAre | volodb-common/ProtoBuf/Frame.pb.cc:136-151 | Which numbers are frame types; any other ends up among the unknown fields |
| WireImages.ColumnTypesAre | volodb-common/ProtoBuf/Column.pb.cc:172-188 | Which numbers are column types |
| ColumnCodec.ColumnValueRoundTrip | volodb-common/ProtoBuf/Column.pb.cc:1104-1255 | Every well-formed ColumnValue comes back from its bytes |
| ColumnCodec.ColumnValueConcat | volodb-common/ProtoBuf/Column.pb.cc:1360-1380 | Parsing two concatenated byte strings gives the later of each field that is there |
| FrameProto.Frame.MergePartialFromCodedStream | volodb-common/ProtoBuf/Frame.pb.cc:578-638 | On every byte string the shortcut parser does what the plain read-one-tag parser does |
| FrameProto.Frame.ParseFromArray | volodb-common/ProtoBuf/Frame.pb.cc:578-638 | Parses exactly the complete frames of the plain parser |
| FrameProto.Frame.TakeField | volodb-common/ProtoBuf/Frame.pb.cc:586-625 | One case of the switch applies the field |
| FrameProto.Frame.ByteSize | volodb-common/ProtoBuf/Frame.pb.cc:695-724 | All cached sizes are numbers of bytes written; returns the frame's |
| FrameProto.Frame.SerializeWithCachedSizes | volodb-common/ProtoBuf/Frame.pb.cc:640-664 | With correct cached sizes writes the frame, all length prefixes right |
| FrameProto.Frame.SerializeToArray | volodb-common/ProtoBuf/Frame.pb.cc:640-724 | Writes exactly as many bytes as ByteSize announced |
| FrameProto.Frame.MergeFrom | volodb-common/ProtoBuf/Frame.pb.cc:738-747 | A present identifier wins, items and unknown fields are appended |
| FrameProto.FrameItem.MergePartialFromCodedStream | volodb-common/ProtoBuf/Frame.pb.cc:253-332 | On every byte string the shortcut parser does what the plain parser does |
| FrameProto.FrameItem.ByteSize | volodb-common/ProtoBuf/Frame.pb.cc:401-435 | Caches and returns the number of bytes written |
| FrameProto.FrameItem.SerializeWithCachedSizes | volodb-common/ProtoBuf/Frame.pb.cc:334-364 | Writes the item |
| FrameProto.FrameItem.MergeFrom | volodb-common/ProtoBuf/Frame.pb.cc:449-463 | Present fields win, unknown fields are appended |
| ColumnProto.ColumnValue.MergePartialFromCodedStream | volodb-common/ProtoBuf/Column.pb.cc:1104-1213 | On every byte string the shortcut parser does what the plain parser does |
| ColumnProto.ColumnValue.ByteSize | volodb-common/ProtoBuf/Column.pb.cc:1302-1346 | Caches and returns the number of bytes written |
| ColumnProto.ColumnValue.SerializeWithCachedSizes | volodb-common/ProtoBuf/Column.pb.cc:1215-1255 | Writes the value |
| ColumnProto.ColumnValue.MergeFrom | volodb-common/ProtoBuf/Column.pb.cc:1360-1380 | Present fields win, unknown fields are appended |
| ResultProto.Result.MergePartialFromCodedStream | volodb-common/ProtoBuf/Result.pb.cc:734-826 | On every byte string the shortcut parser does what the plain parser does, nested messages included |
| ResultProto.OperationResult.MergePartialFromCodedStream | volodb-common/ProtoBuf/Result.pb.cc:441-505 | The same for OperationResult |
| ResultProto.Row.MergePartialFromCodedStream | volodb-common/ProtoBuf/Result.pb.cc:218-262 | The same for Row |
| ResultProto.Result.ParseFromString | volodb-common/ProtoBuf/Result.pb.cc:734-826 | Parses exactly the complete Results of the plain parser |
| ResultProto.Result.ByteSize | volodb-common/ProtoBuf/Result.pb.cc:914-957 | Every cached size in the tree is the number of bytes its message writes |
| ResultProto.SizeResult | volodb-common/ProtoBuf/Result.pb.cc:914-957 | Computes the cached sizes level by level |
| ResultProto.SizeOperation | volodb-common/ProtoBuf/Result.pb.cc:553-581 | The same for OperationResult |
| ResultProto.SizeRow | volodb-common/ProtoBuf/Result.pb.cc:298-318 | The same for Row |
| ResultProto.Result.SerializeWithCachedSizes | volodb-common/ProtoBuf/Result.pb.cc:828-867 | With correct cached sizes writes the tree, all length prefixes right |
| ResultProto.WriteOperation | volodb-common/ProtoBuf/Result.pb.cc:507-527 | The same for OperationResult |
| ResultProto.WriteRow | volodb-common/ProtoBuf/Result.pb.cc:264-278 | The same for Row |
| ResultProto.Result.SerializeToString | volodb-common/ProtoBuf/Result.pb.cc:828-957 | Writes exactly as many bytes as ByteSize announced |
| ResultProto.Result.MergeFrom | volodb-common/ProtoBuf/Result.pb.cc:971-986 | Present fields win, results and unknown fields are appended |

## Left out

- Store start and stop, sockets, the proxy, polling intervals, threads, configuration, logging, statistics and benchmarks.
- `shouldIgnoreRequest`, `getResponsibleExecutor` and the definer layer: not in the running path.
- `ColumnsValueBuilder`, `ColumnsValueDecoder` and the other generated classes: easy, or the same pattern again. `OperationCodec` has the operations as values only.
- UTF-8 checks, which only log, and the library's limit on how deep groups may nest.
- Rollback of definitions, and what definitions do to the tables: the database of the state machine holds what set and delete operations change.
- NDB's other objections to an operation, such as a value of the wrong size: they are an arbitrary answer. The rows a GET finds are arbitrary to the executor; `CommittedGetsAreFilters` says what they are.
- What a crash leaves behind, in memory or in the cluster: after `crashed` nothing is promised but that no more steps follow.
- That 32-bit counters and sizes beyond the limits above overflow.
- TableCreation.CreateTableReadsBack: for names made of letters, digits and underscores, because the text has no quotes and other names do not read back.
- ResultProto.Result.ByteSize: elements of repeated fields are values owned by their parent, so sharing of elements between messages is not modelled.
- Execution.PollNdb: needs polls to report something in the end; how many report nothing before that is any number, chosen anew each time.
- BatchRefinements.BatchIsARun: for batches in which no tuple crashes the executor.
- PipelineSafety.ReachableIsInOrder: a worker's receive-decode-scatter and an executor's message loop over one tuple are one step each: what they hand to other threads in between is handed over at the end.
