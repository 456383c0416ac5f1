/**
 The store's worker bodies over live objects (Store.cpp): decoding and scattering received parts
 and handing the lists over by pointer, and one round of an executor.
 */
module StoreWorkers {
  import opened Wrappers
  import opened Wire
  import opened FrameDecoding
  import opened Transport
  import opened MessageProcessing
  import opened NdbTables
  import opened TupleRuns
  import opened Execution

  /** The PULL socket of an executor: list pointers in the order they were sent. */
  class TaskQueue {
    var pointers: seq<TupleList>

    constructor ()
      ensures pointers == []
    {
      pointers := [];
    }
  }

  /** What a queue holds after a bucket was sent to it, or none was. */
  ghost predicate Sent(queue: TaskQueue, before: seq<TupleList>, bucket: seq<FrameMessagesTuple>)
    reads queue, queue.pointers
  {
    if bucket == [] then queue.pointers == before
    else
      && |queue.pointers| == |before| + 1 && queue.pointers[..|before|] == before
      && queue.pointers[|before|].tuples == bucket && !queue.pointers[|before|].adopted
  }

  /** sendTaskToExecutor: a heap copy of the list's smart pointer, of which only the address is sent. */
  method SendTaskToExecutor(messages: seq<FrameMessagesTuple>, taskSender: TaskQueue) returns (pointer: TupleList)
    modifies taskSender
    ensures fresh(pointer) && pointer.tuples == messages && !pointer.adopted
    ensures taskSender.pointers == old(taskSender.pointers) + [pointer]
    ensures messages != [] ==> Sent(taskSender, old(taskSender.pointers), messages)
  {
    pointer := new TupleList(messages);
    taskSender.pointers := taskSender.pointers + [pointer];
  }

  lemma {:induction false} BucketRepresents(list: seq<FrameMessagesTuple>, values: seq<TupleValue>, choices: seq<nat>,
                                            e: nat)
    requires Represents(list, values) && |choices| == |list|
    ensures Represents(BucketOf(list, choices, e), BucketOf(values, choices, e))
    ensures forall t :: t in BucketOf(list, choices, e) ==> t in list
  {
    if list != [] {
      var last := |list| - 1;
      assert Represents(list[..last], values[..last]);
      BucketRepresents(list[..last], values[..last], choices[..last], e);
      assert list[last] !in list[..last];
    }
  }

  /** The loop over the buckets, in whatever order the map has them. */
  method SendTasks(tasks: map<nat, seq<FrameMessagesTuple>>, taskSenders: array<TaskQueue>)
    requires forall i, j :: 0 <= i < j < taskSenders.Length ==> taskSenders[i] != taskSenders[j]
    requires forall e :: e in tasks ==> e < taskSenders.Length && tasks[e] != []
    modifies taskSenders[..]
    ensures forall e :: 0 <= e < taskSenders.Length ==>
              Sent(taskSenders[e], old(taskSenders[e].pointers), if e in tasks then tasks[e] else [])
  {
    hide Sent;
    var keys := tasks.Keys;
    while keys != {}
      invariant forall e :: e in keys ==> e in tasks
      invariant forall e :: 0 <= e < taskSenders.Length && (e in keys || e !in tasks) ==>
                  taskSenders[e].pointers == old(taskSenders[e].pointers)
      invariant forall e :: 0 <= e < taskSenders.Length && e !in keys && e in tasks ==>
                  Sent(taskSenders[e], old(taskSenders[e].pointers), tasks[e])
      decreases |keys|
    {
      var key :| key in keys;
      var pointer := SendTaskToExecutor(tasks[key], taskSenders[key]);
      keys := keys - {key};
    }
    forall e | 0 <= e < taskSenders.Length && e !in tasks
      ensures Sent(taskSenders[e], old(taskSenders[e].pointers), [])
    {
      NothingSent(taskSenders[e]);
    }
  }

  lemma NothingSent(queue: TaskQueue)
    ensures Sent(queue, queue.pointers, [])
  {
  }

  /** Each tuple of the list goes to the executor it drew: the scattering, then the sending. */
  method ScatterAndSend(messages: seq<FrameMessagesTuple>, taskSenders: array<TaskQueue>, randoms: seq<nat>)
    requires taskSenders.Length > 0 && |randoms| == |messages|
    requires forall i, j :: 0 <= i < j < taskSenders.Length ==> taskSenders[i] != taskSenders[j]
    modifies taskSenders[..]
    ensures var choices := Choices(randoms, taskSenders.Length);
            forall e :: 0 <= e < taskSenders.Length ==>
              Sent(taskSenders[e], old(taskSenders[e].pointers), BucketOf(messages, choices, e))
  {
    hide Sent;
    hide BucketOf;
    hide IsSubsequence;
    hide Together;
    var tasks := ProcessForExecutor(messages, taskSenders.Length, randoms);
    ScatterIsPartition(tasks, messages, randoms, taskSenders.Length);
    SendTasks(tasks, taskSenders);
  }

  /**
   _processMessages: every decoded tuple goes to the executor it drew, in one new list per
   executor that drew any. An odd number of parts crashes the decoder before anything is sent.
   */
  method ProcessMessages(p: Parsers, parts: seq<Bytes>, taskSenders: array<TaskQueue>, randoms: seq<nat>)
    returns (ghost list: seq<FrameMessagesTuple>, crashed: bool)
    requires taskSenders.Length > 0
    requires forall i, j :: 0 <= i < j < taskSenders.Length ==> taskSenders[i] != taskSenders[j]
    requires |randoms| == |DecodeEnvelopes(p, EnvelopesOf(parts))|
    modifies taskSenders[..]
    ensures crashed <==> |parts| % 2 == 1
    ensures crashed ==> forall e :: 0 <= e < taskSenders.Length ==> unchanged(taskSenders[e])
    ensures forall t :: t in list ==> fresh(t) && fresh(t.identity)
    ensures !crashed ==> |list| == |randoms| && Represents(list, DecodeEnvelopes(p, EnvelopesOf(parts)))
    ensures !crashed ==>
              var choices := Choices(randoms, taskSenders.Length);
              forall e :: 0 <= e < taskSenders.Length ==>
                && Sent(taskSenders[e], old(taskSenders[e].pointers), BucketOf(list, choices, e))
                && Represents(BucketOf(list, choices, e), BucketOf(DecodeEnvelopes(p, EnvelopesOf(parts)), choices, e))
  {
    hide DecodeEnvelopes;
    hide EnvelopesOf;
    hide Represents;
    hide Sent;
    hide BucketOf;
    hide Choices;
    ghost var values := DecodeEnvelopes(p, EnvelopesOf(parts));
    ghost var choices := Choices(randoms, taskSenders.Length);
    var messages;
    messages, crashed := DecodeWithIdentities(p, parts);
    list := messages;
    if crashed {
      return;
    }
    LengthOfRepresented(messages, values);
    ScatterAndSend(messages, taskSenders, randoms);
    forall e: nat | e < taskSenders.Length
      ensures Represents(BucketOf(list, choices, e), BucketOf(values, choices, e))
    {
      BucketRepresents(list, values, choices, e);
    }
  }

  lemma LengthOfRepresented(list: seq<FrameMessagesTuple>, values: seq<TupleValue>)
    requires Represents(list, values)
    ensures |list| == |values|
  {
  }

  function DataOf(parts: seq<Part>): (data: seq<Bytes>)
    ensures |data| == |parts|
  {
    seq(|parts|, i requires 0 <= i < |parts| => parts[i].data)
  }

  /**
   One round of the transport's worker_thread_handler: all parts that are queued are decoded two by
   two and scattered over the executors, and all replies in the sink leave whole and in order. An odd
   number of parts crashes the server.
   */
  method WorkerRound(p: Parsers, incoming: ZmqSocket, outgoing: ZmqSocket, sink: ZmqSocket,
                     taskSenders: array<TaskQueue>, randoms: seq<nat>, ghost waiting: seq<Envelope>)
    returns (ghost list: seq<FrameMessagesTuple>, crashed: bool)
    requires incoming != outgoing && incoming != sink && sink != outgoing && taskSenders.Length > 0
    requires sink.queue == PartsOf(waiting)
    requires forall i, j :: 0 <= i < j < taskSenders.Length ==> taskSenders[i] != taskSenders[j]
    requires |randoms| == |DecodeEnvelopes(p, EnvelopesOf(DataOf(incoming.queue)))|
    modifies incoming, outgoing, sink, taskSenders[..]
    ensures crashed <==> |old(incoming.queue)| % 2 == 1
    ensures incoming.queue == []
    ensures !crashed ==> sink.queue == [] && outgoing.queue == old(outgoing.queue) + PartsOf(waiting)
    ensures !crashed ==>
              && |list| == |randoms|
              && Represents(list, DecodeEnvelopes(p, EnvelopesOf(DataOf(old(incoming.queue)))))
    ensures !crashed ==>
              var choices := Choices(randoms, taskSenders.Length);
              forall e :: 0 <= e < taskSenders.Length ==>
                Sent(taskSenders[e], old(taskSenders[e].pointers), BucketOf(list, choices, e))
  {
    hide DecodeEnvelopes;
    hide EnvelopesOf;
    hide Represents;
    hide Sent;
    var allMessages := ReceiveQueuedMessages(incoming, -1);
    assert allMessages + [] == allMessages;
    list, crashed := ProcessMessages(p, DataOf(allMessages), taskSenders, randoms);
    if !crashed {
      ForwardReplies(sink, outgoing, waiting);
    }
  }

  /** receiveQueuedMessages(taskReceiverSocket, 1024): at most 1024 pointers, in order. */
  method ReceivePointers(queue: TaskQueue, readLimit: nat) returns (lists: seq<TupleList>)
    requires readLimit > 0
    modifies queue
    ensures lists + queue.pointers == old(queue.pointers)
    ensures if |old(queue.pointers)| > readLimit then |lists| == readLimit else queue.pointers == []
  {
    lists := [];
    while queue.pointers != [] && |lists| < readLimit
      invariant lists + queue.pointers == old(queue.pointers) && |lists| <= readLimit
      decreases |queue.pointers|
    {
      lists := lists + [queue.pointers[0]];
      queue.pointers := queue.pointers[1..];
    }
  }

  /**
   One round of _executorWorkerThreadFunc: the received lists are executed as a batch, and when
   the round ends nothing is in flight and their tuples are freed, unless a tuple crashes the server.
   */
  method ExecutorRound(queue: TaskQueue, sink: ZmqSocket, ndb: Ndb, answers: seq<seq<seq<Answer>>>,
                       ghost values: seq<seq<TupleValue>>)
    returns (lists: seq<TupleList>, crashed: bool)
    requires var n := if |queue.pointers| < MAX_TRANSACTIONS then |queue.pointers| else MAX_TRANSACTIONS;
             && |values| == |answers| == n
             && (forall i :: 0 <= i < n ==>
                   && Represents(queue.pointers[i].tuples, values[i])
                   && HaveAnswers(values[i], answers[i]))
    requires forall i, j :: 0 <= i < j < |queue.pointers| ==> queue.pointers[i] != queue.pointers[j]
    requires forall l :: l in queue.pointers ==> !l.adopted
    requires ndb.open == 0 && ndb.pending == [] && ndb.jobs == []
    modifies queue, ndb, sink, queue.pointers, set l, t | l in queue.pointers && t in l.tuples :: t`released
    ensures lists + queue.pointers == old(queue.pointers) && |lists| == |values|
    ensures crashed <==> !AllSurvive(values, answers)
    ensures !crashed ==> ndb.open == 0 && ndb.pending == [] && ndb.jobs == []
    ensures !crashed ==> ExecutedIn(ndb.events) == AllRuns(values, answers)
    ensures !crashed ==> Books(old(sink.queue), old(ndb.database), sink.queue, ndb.database, [], ndb.events)
    ensures !crashed ==> forall l :: l in lists ==> l.adopted && forall t :: t in l.tuples ==> t.released
  {
    hide Represents;
    hide HaveAnswers;
    hide AllSurvive;
    hide TuplesIn;
    hide Replay;
    hide AllRuns;
    hide ExecutedIn;
    hide Books;
    ghost var pointers := queue.pointers;
    lists := ReceivePointers(queue, MAX_TRANSACTIONS);
    assert forall i :: 0 <= i < |lists| ==> lists[i] == pointers[i];
    assert forall l :: l in lists ==> l in pointers;
    ndb.events := [];
    NothingYet(sink.queue, ndb.database);
    crashed := false;
    if |lists| > 0 {
      crashed := ExecuteBatch(lists, answers, sink, ndb, values, ndb.database);
    }
  }
}
