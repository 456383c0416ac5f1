/**
 The executor (NDBMessageExecutor.cpp): tuple execution, the batch loop with its flush at 1024
 transactions, the wait loop and the callback, over live tuple objects.
 */
module Execution {
  import opened Wrappers
  import opened Wire
  import opened Messages
  import opened ResultCodec
  import opened FrameBuilding
  import opened FrameDecoding
  import opened Transport
  import opened ClientExecution
  import opened NdbTables
  import opened TupleRuns
  import GetPlanning
  import TableCreation
  import OperationCodec

  const MAX_TRANSACTIONS: nat := 1024

  // ---------------------------------------------------------------- replies

  function ReplyEnvelope(identity: Bytes, r: Result): Envelope { Envelope(identity, ReplyBytes(r)) }

  function ReplyEnvelopes(identity: Bytes, rs: seq<Result>): (es: seq<Envelope>)
    ensures |es| == |rs|
  {
    seq(|rs|, i requires 0 <= i < |rs| => ReplyEnvelope(identity, rs[i]))
  }

  /** replyWithResult: the identity message is handed over and left empty. */
  method ReplyWithResult(result: Result, identifier: ZmqMessage, sink: ZmqSocket)
    modifies identifier, sink
    ensures sink.queue == old(sink.queue) + EnvelopeParts(ReplyEnvelope(old(identifier.data), result))
    ensures sink.queue == old(sink.queue) + [Part(old(identifier.data), true), Part(ReplyBytes(result), false)]
    ensures identifier.data == []
  {
    var bytes := GetBytesOfFrameWithMessage(ServerResponse(result));
    var serverReply := new ZmqMessage(bytes.value);
    sink.Send(identifier, true);
    sink.Send(serverReply, false);
  }

  // ---------------------------------------------------------------- NDB

  /** NdbTransactionState: what a pending callback points to. `released`: its shared_ptr is gone. */
  class NdbTransactionState {
    const tuple: FrameMessagesTuple
    const sink: ZmqSocket
    const operations: seq<Message>
    var released: bool

    constructor (tuple: FrameMessagesTuple, sink: ZmqSocket, operations: seq<Message>)
      ensures this.tuple == tuple && this.sink == sink && this.operations == operations && !released
    {
      this.tuple, this.sink, this.operations, released := tuple, sink, operations, false;
    }
  }

  /** One ended transaction: the tuple it came from, its operations, and how it ended. */
  datatype Completion = Completion(tuple: TupleValue, operations: seq<Message>, verdict: Verdict,
      fetched: seq<seq<Row>>)
  {
    function Reply(): Envelope {
      ReplyEnvelope(tuple.identity, CallbackReply(tuple.id, operations, verdict, fetched))
    }
  }

  /** What a callback still has to do: the tuple and the operations it was prepared with. */
  datatype Job = Job(tuple: TupleValue, operations: seq<Message>)

  // ---------------------------------------------------------------- what has happened

  /**
   A tuple that was executed, with its answers and the state its loop ended in, or the k-th of the
   pending transactions that was completed.
   */
  datatype Event =
    | Executed(tuple: TupleValue, answers: seq<Answer>, run: RunState)
    | Completed(k: nat, completion: Completion)
  {
    function Replies(): seq<Envelope> {
      match this
      case Executed(t, _, run) => ReplyEnvelopes(t.identity, run.replies)
      case Completed(_, c) => [c.Reply()]
    }

    function Prepared(): seq<Job> {
      if Executed? && run.open then [Job(tuple, run.operations)] else []
    }

    function Ended(): seq<Job> {
      if Completed? then [Job(completion.tuple, completion.operations)] else []
    }
  }

  function RepliesOf(events: seq<Event>): seq<Envelope> {
    if events == [] then []
    else
      var last := |events| - 1;
      RepliesOf(events[..last]) + events[last].Replies()
  }

  function PreparedIn(events: seq<Event>): seq<Job> {
    if events == [] then []
    else
      var last := |events| - 1;
      PreparedIn(events[..last]) + events[last].Prepared()
  }

  function EndedIn(events: seq<Event>): seq<Job> {
    if events == [] then []
    else
      var last := |events| - 1;
      EndedIn(events[..last]) + events[last].Ended()
  }

  /** Every completed transaction takes effect as a whole, in the order of the callbacks. */
  function DatabaseAfterAll(db: Database, events: seq<Event>): Database {
    if events == [] then db
    else
      var last := |events| - 1;
      var before := DatabaseAfterAll(db, events[..last]);
      match events[last]
      case Executed(_, _, _) => before
      case Completed(_, c) => AfterCallback(before, c.operations, c.verdict)
  }

  /** The tuples executed, in order, with their answers' outcome. */
  function ExecutedIn(events: seq<Event>): seq<Event> {
    if events == [] then []
    else
      var last := |events| - 1;
      ExecutedIn(events[..last]) + if events[last].Executed? then [events[last]] else []
  }

  lemma OneMoreEvent(events: seq<Event>, e: Event)
    ensures RepliesOf(events + [e]) == RepliesOf(events) + e.Replies()
    ensures PreparedIn(events + [e]) == PreparedIn(events) + e.Prepared()
    ensures EndedIn(events + [e]) == EndedIn(events) + e.Ended()
    ensures ExecutedIn(events + [e]) == ExecutedIn(events) + if e.Executed? then [e] else []
    ensures forall db :: DatabaseAfterAll(db, events + [e])
                         == match e
                            case Executed(_, _, _) => DatabaseAfterAll(db, events)
                            case Completed(_, c) => AfterCallback(DatabaseAfterAll(db, events), c.operations, c.verdict)
  {
    assert (events + [e])[..|events|] == events;
  }

  /**
   The books balance: the sink got the replies of all events, in order; the database is the
   result of the committed transactions; what was prepared is completed or still pending.
   */
  ghost predicate Books(start: seq<Part>, base: Database, queue: seq<Part>, db: Database, jobs: seq<Job>,
                        events: seq<Event>) {
    && queue == start + PartsOf(RepliesOf(events))
    && db == DatabaseAfterAll(base, events)
    && multiset(PreparedIn(events)) == multiset(jobs) + multiset(EndedIn(events))
  }

  /** Entering an event with its replies, its effect on the database and its change of the jobs. */
  lemma EnterEvent(start: seq<Part>, base: Database, queue: seq<Part>, db: Database, jobs: seq<Job>, events: seq<Event>,
                   e: Event, queue': seq<Part>, db': Database, jobs': seq<Job>)
    requires Books(start, base, queue, db, jobs, events)
    requires queue' == queue + PartsOf(e.Replies())
    requires db' == if e.Executed? then db else AfterCallback(db, e.completion.operations, e.completion.verdict)
    requires multiset(jobs') + multiset(e.Ended()) == multiset(jobs) + multiset(e.Prepared())
    ensures Books(start, base, queue', db', jobs', events + [e])
  {
    OneMoreEvent(events, e);
    PartsOfConcat(RepliesOf(events), e.Replies());
    AppendsToParts(start, PartsOf(RepliesOf(events)), PartsOf(e.Replies()));
    SameSum(multiset(PreparedIn(events)), multiset(jobs), multiset(EndedIn(events)), multiset(e.Prepared()),
            multiset(jobs'), multiset(e.Ended()));
  }

  lemma SameSum(prepared: multiset<Job>, jobs: multiset<Job>, ended: multiset<Job>, p: multiset<Job>,
                jobs': multiset<Job>, e: multiset<Job>)
    requires prepared == jobs + ended && jobs' + e == jobs + p
    ensures prepared + p == jobs' + (ended + e)
  {
    calc {
      prepared + p;
      jobs + ended + p;
      jobs + p + ended;
      jobs' + e + ended;
      jobs' + (ended + e);
    }
  }

  lemma AppendsToParts(start: seq<Part>, a: seq<Part>, b: seq<Part>)
    ensures start + a + b == start + (a + b)
  {
  }

  lemma {:induction false} PartsOfConcat(a: seq<Envelope>, b: seq<Envelope>)
    ensures PartsOf(a + b) == PartsOf(a) + PartsOf(b)
  {
    if b == [] {
      assert a + b == a && PartsOf(a) + [] == PartsOf(a);
    } else {
      var last := |b| - 1;
      PartsOfConcat(a, b[..last]);
      assert a + b == (a + b[..last]) + [b[last]] && b == b[..last] + [b[last]];
      PartsOfSnoc(a + b[..last], b[last]);
      PartsOfSnoc(b[..last], b[last]);
      AppendsToParts(PartsOf(a), PartsOf(b[..last]), EnvelopeParts(b[last]));
    }
  }

  // ---------------------------------------------------------------- the batch loop as a machine

  /** Where a batch is: the pending jobs, the transactions counted, whether it waits, the tuples left. */
  datatype Loop = Loop(jobs: seq<Job>, total: nat, waiting: bool, left: nat)

  function Without<T>(s: seq<T>, k: nat): seq<T>
    requires k < |s|
  {
    s[..k] + s[k + 1..]
  }

  /**
   The loop after an event, if that can come next: tuples are executed while it does not wait, and
   transactions complete while it waits, from the 1024th or the end of the tuples until none is left.
   */
  function Follow(l: Loop, e: Event): Option<Loop> {
    match e
    case Executed(_, _, run) =>
      if l.waiting || l.left == 0 then None
      else
        var total := l.total + if run.open then 1 else 0;
        Some(Loop(l.jobs + e.Prepared(), total, total == MAX_TRANSACTIONS, l.left - 1))
    case Completed(k, c) =>
      if (!l.waiting && l.left > 0) || k >= |l.jobs| || l.jobs[k] != Job(c.tuple, c.operations) then None
      else if |l.jobs| == 1 then Some(Loop([], 0, false, l.left))
      else Some(Loop(Without(l.jobs, k), l.total, true, l.left))
  }

  /** The loop after all events of a batch of so many tuples. */
  function Replay(tuples: nat, events: seq<Event>): Option<Loop> {
    if events == [] then Some(Loop([], 0, false, tuples))
    else
      var last := |events| - 1;
      match Replay(tuples, events[..last])
      case None => None
      case Some(l) => Follow(l, events[last])
  }

  lemma ReplayGrows(tuples: nat, events: seq<Event>, e: Event)
    requires Replay(tuples, events).Some?
    ensures Replay(tuples, events + [e]) == Follow(Replay(tuples, events).value, e)
  {
    hide Follow;
    assert (events + [e])[..|events|] == events;
  }

  /** What a batch starts with: the sink, the database, and how many tuples there are. */
  datatype Opening = Opening(queue: seq<Part>, db: Database, tuples: nat)

  /** The Ndb object of one executor. `open` counts the transactions started and not closed. */
  class Ndb {
    var open: nat
    var pending: seq<NdbTransactionState>
    var database: Database
    /** How many more polls may report nothing before one of them does; any number, chosen anew each time. */
    var idlePolls: nat
    /** The pending transactions by value, everything that has happened, and where the batch is. */
    ghost var jobs: seq<Job>
    ghost var events: seq<Event>
    ghost var loop: Loop

    /** The callback objects wait, each once, for tuples that are still there. */
    ghost predicate Valid()
      reads `open, `pending, `jobs, pending, set s | s in pending :: s.tuple, set s | s in pending :: s.tuple.identity
    {
      && |jobs| == |pending| <= open <= MAX_TRANSACTIONS
      && (forall i :: 0 <= i < |pending| ==>
            && !pending[i].released && !pending[i].tuple.released
            && jobs[i] == Job(pending[i].tuple.Value(), pending[i].operations))
      && forall i, j :: 0 <= i < j < |pending| ==> pending[i] != pending[j]
    }

    ghost predicate Balanced(sink: ZmqSocket, opening: Opening)
      reads `database, `jobs, `events, `loop, sink
    {
      && Books(opening.queue, opening.db, sink.queue, database, jobs, events)
      && Replay(opening.tuples, events) == Some(loop) && loop.jobs == jobs
    }

    /** startTransaction; NDB was initialised for MAX_TRANSACTIONS open ones. */
    method StartTransaction(succeeds: bool) returns (started: bool)
      requires open < MAX_TRANSACTIONS
      modifies `open
      ensures started == succeeds && open == old(open) + if started then 1 else 0
    {
      started := succeeds;
      if started {
        open := open + 1;
      }
    }

    /** NdbTransaction::close. */
    method CloseTransaction()
      requires open > |pending|
      modifies `open
      ensures open == old(open) - 1
    {
      open := open - 1;
    }

    /** NDB picks the k-th pending transaction to end. */
    method TakePending(k: nat) returns (state: NdbTransactionState)
      requires Valid() && k < |pending|
      modifies `pending, `jobs
      ensures Valid() && state == old(pending)[k] && pending == Without(old(pending), k)
      ensures state !in pending && !state.released && !state.tuple.released
      ensures jobs == Without(old(jobs), k)
      ensures old(jobs)[k] == Job(state.tuple.Value(), state.operations)
    {
      state := pending[k];
      pending := Without(pending, k);
      jobs := Without(jobs, k);
    }

    /** executeAsynchPrepare. */
    method ExecuteAsynchPrepare(state: NdbTransactionState)
      requires Valid() && |pending| < open && !state.released && !state.tuple.released && state !in pending
      modifies `pending, `jobs
      ensures Valid() && pending == old(pending) + [state]
      ensures jobs == old(jobs) + [Job(state.tuple.Value(), state.operations)]
    {
      pending := pending + [state];
      jobs := jobs + [Job(state.tuple.Value(), state.operations)];
    }
  }

  // ---------------------------------------------------------------- one tuple

  lemma OneMoreReply(start: seq<Part>, identity: Bytes, rs: seq<Result>, r: Result)
    ensures start + PartsOf(ReplyEnvelopes(identity, rs)) + EnvelopeParts(ReplyEnvelope(identity, r))
            == start + PartsOf(ReplyEnvelopes(identity, rs + [r]))
  {
    PartsOfSnoc(ReplyEnvelopes(identity, rs), ReplyEnvelope(identity, r));
    assert ReplyEnvelopes(identity, rs + [r]) == ReplyEnvelopes(identity, rs) + [ReplyEnvelope(identity, r)];
  }

  /**
   The four definition cases: the query that is run for each, and the reply. For a new store without a key
   column of either kind there is none; of any other the query declares what it is to be.
   */
  method ExecuteDefinition(id: Bytes, m: Message, a: Answer) returns (result: Result, query: Option<Bytes>)
    requires m.IsDefinition()
    ensures result == DefinitionResult(id, m, a)
    ensures m.CreateDatabase? ==> query == Some(TableCreation.Ascii("CREATE DATABASE IF NOT EXISTS ") + m.name)
    ensures m.DropDatabase? ==> query == Some(TableCreation.Ascii("DROP DATABASE ") + m.name)
    ensures m.DropStore? ==>
              query == Some(TableCreation.Ascii("DROP TABLE ")
                            + m.definition.storeInfo.GetOr(OperationCodec.NO_STORE_INFO).storeName.GetOr([]))
    ensures m.CreateStore? ==>
              && (query.Some? <==> (exists c :: c in m.definition.columns && c.primaryKey.Some?)
                                   && exists c :: c in m.definition.columns && c.distributionKey.Some?)
              && (query.Some? && TableCreation.PlainNames(m.definition) ==>
                    && TableCreation.ReadTable(query.value).Some?
                    && TableCreation.Declares(TableCreation.ReadTable(query.value).value, m.definition))
  {
    hide TableCreation.Declares;
    hide TableCreation.PlainNames;
    hide TableCreation.ReadTable;
    hide TableCreation.PrintTable;
    result := QueryResult(id, a.query);
    match m
    case CreateDatabase(name) =>
      query := Some(TableCreation.Ascii("CREATE DATABASE IF NOT EXISTS ") + name);
    case DropDatabase(name) =>
      query := Some(TableCreation.Ascii("DROP DATABASE ") + name);
    case CreateStore(d) =>
      TableCreation.KeyListsAreEmpty(d);
      var statement := TableCreation.CreateTable(d);
      match statement {
        case Refused(why) => result, query := ErrorResult(id, why, 0), None;
        case Issued(text) => query := Some(text);
      }
    case DropStore(d) =>
      query := Some(TableCreation.Ascii("DROP TABLE ") + TableCreation.StoreNameOf(d));
  }

  /** execute of a set, get or delete in the started transaction: whether there is a new operation. */
  method ExecuteOperation(m: Message, a: Answer) returns (newOperation: bool, crashed: bool)
    requires m.IsManipulation()
    ensures newOperation <==> PlanFor(m, a) == GetPlanning.Accepted
    ensures crashed <==> PlanFor(m, a) == GetPlanning.Crashed
  {
    hide GetPlanning.PlanOf;
    hide GetPlanning.Bindable;
    crashed := false;
    var added;
    match m
    case Set(o) =>
      added := GetPlanning.Set(o, a.info, a.accepts);
      newOperation := added != null;
    case Delete(o) =>
      added := GetPlanning.Delete(o, a.info, a.accepts);
      newOperation := added != null;
    case Get(o) =>
      added, crashed := GetPlanning.Get(o, a.info, a.ndb);
      newOperation := added != null;
  }

  /**
   The body of the message loop. `s` is the state so far; `start` is what the sink held before
   the tuple. Only fresh copies of the tuple's identity are sent. `crashed`: the code reads what is
   not there, the first store_info of an operation without any or a column the table does not have.
   */
  method ExecuteMessage(t: FrameMessagesTuple, m: Message, a: Answer, sink: ZmqSocket, ndb: Ndb,
                        open: bool, operations: seq<Message>, ghost s: RunState, ghost start: seq<Part>)
    returns (open': bool, operations': seq<Message>, stopped: bool, crashed: bool)
    requires !s.IsOver() && s.open == open && s.operations == operations
    requires ndb.open == |ndb.pending| + (if open then 1 else 0) && |ndb.pending| < MAX_TRANSACTIONS
    requires sink.queue == start + PartsOf(ReplyEnvelopes(t.identity.data, s.replies))
    modifies sink, ndb`open
    ensures var next := TakeMessage(t.id, s, m, a);
            && crashed == next.crashed
            && sink.queue == start + PartsOf(ReplyEnvelopes(t.identity.data, next.replies))
            && (!crashed ==>
                  && open' == next.open && operations' == next.operations && stopped == next.stopped
                  && ndb.open == |ndb.pending| + (if open' then 1 else 0))
    ensures m.CreateDatabase? || m.DropDatabase? || m.CreateStore? || m.DropStore? ==>
              !crashed && !stopped && open' == open && operations' == operations
    ensures m.ServerResponse? || m.Unsupported? ==> !crashed && stopped && !open' && operations' == []
  {
    hide DefinitionResult;
    hide RefusalResult;
    hide GetPlanning.PlanOf;
    hide PartsOf;
    hide ReplyEnvelopes;
    hide ReplyEnvelope;
    hide EnvelopeParts;
    open', operations', stopped, crashed := open, operations, false, false;
    var identifier := new ZmqMessage([]);
    identifier.Copy(t.identity);
    if m.IsDefinition() {
      var result, query := ExecuteDefinition(t.id, m, a);
      OneMoreReply(start, t.identity.data, s.replies, result);
      ReplyWithResult(result, identifier, sink);
    } else {
      var newOperation := false;
      if m.IsManipulation() {
        if m.operation.storeInfo == [] {
          crashed := true;
          return;
        }
        if !open' {
          open' := ndb.StartTransaction(a.starts);
        }
        if open' {
          newOperation, crashed := ExecuteOperation(m, a);
          if crashed {
            return;
          }
        }
      }
      if newOperation {
        operations' := operations' + [m];
      } else {
        var result := RefusalResult(t.id, open', a);
        if open' {
          ndb.CloseTransaction();
        }
        open', operations', stopped := false, [], true;
        OneMoreReply(start, t.identity.data, s.replies, result);
        ReplyWithResult(result, identifier, sink);
      }
    }
  }

  /** The new NdbTransactionState, and executeAsynchPrepare with it. */
  method PrepareCommit(t: FrameMessagesTuple, operations: seq<Message>, sink: ZmqSocket, ndb: Ndb)
    requires ndb.Valid() && |ndb.pending| < ndb.open && !t.released
    modifies ndb`pending, ndb`jobs
    ensures ndb.Valid() && |ndb.pending| == |old(ndb.pending)| + 1
    ensures ndb.jobs == old(ndb.jobs) + [Job(t.Value(), operations)]
    ensures forall p :: p in ndb.pending && p !in old(ndb.pending) ==> fresh(p) && p.tuple == t && p.sink == sink
  {
    var state := new NdbTransactionState(t, sink, operations);
    ndb.ExecuteAsynchPrepare(state);
  }

  /**
   execute(FrameMessagesTuple): answers the messages, and prepares the transaction if one is open.
   When it crashes, only the replies that were sent before are of account.
   */
  method ExecuteTuple(t: FrameMessagesTuple, answers: seq<Answer>, sink: ZmqSocket, ndb: Ndb)
    returns (prepared: bool, crashed: bool)
    requires |answers| == |t.messages| && !t.released
    requires ndb.Valid() && ndb.open == |ndb.pending| < MAX_TRANSACTIONS
    modifies sink, ndb`open, ndb`pending, ndb`jobs
    ensures var s := Run(t.id, t.messages, answers);
            && crashed == s.crashed && prepared == s.open
            && sink.queue == old(sink.queue) + PartsOf(ReplyEnvelopes(t.identity.data, s.replies))
            && ndb.jobs == old(ndb.jobs) + if prepared then [Job(t.Value(), s.operations)] else []
    ensures !crashed ==> ndb.Valid() && ndb.open == |ndb.pending|
    ensures |ndb.pending| == |old(ndb.pending)| + if prepared then 1 else 0
    ensures forall p :: p in ndb.pending && p !in old(ndb.pending) ==> fresh(p) && p.tuple == t && p.sink == sink
  {
    hide TakeMessage;
    hide PartsOf;
    assert Run(t.id, t.messages[..0], answers[..0]) == BEGIN;
    assert ReplyEnvelopes(t.identity.data, []) == [];
    hide Run;
    hide ReplyEnvelopes;
    ghost var start := sink.queue;
    var open, operations, i := false, [], 0;
    assert start + [] == start;
    ghost var s := BEGIN;
    var stopped := false;
    crashed := false;
    while i < |t.messages|
      invariant i <= |t.messages| && s == Run(t.id, t.messages[..i], answers[..i])
      invariant !s.IsOver() && !crashed && s.open == open && s.operations == operations
      invariant ndb.Valid() && ndb.open == |ndb.pending| + (if open then 1 else 0)
      invariant ndb.pending == old(ndb.pending) && ndb.jobs == old(ndb.jobs)
      invariant sink.queue == start + PartsOf(ReplyEnvelopes(t.identity.data, s.replies))
    {
      RunStep(t.id, t.messages, answers, i);
      open, operations, stopped, crashed :=
        ExecuteMessage(t, t.messages[i], answers[i], sink, ndb, open, operations, s, start);
      s := TakeMessage(t.id, s, t.messages[i], answers[i]);
      i := i + 1;
      if stopped || crashed {
        OverStays(t.id, t.messages, answers, i);
        break;
      }
    }
    assert !s.IsOver() ==> t.messages[..i] == t.messages && answers[..i] == answers;
    assert s == Run(t.id, t.messages, answers);
    if crashed {
      OpenMeansNoCrash(t.id, t.messages, answers);
      return false, true;
    }
    if open {
      PrepareCommit(t, operations, sink, ndb);
    }
    return open, false;
  }

  /** The same, entered in the books if it does not crash. */
  method RunTuple(t: FrameMessagesTuple, answers: seq<Answer>, sink: ZmqSocket, ndb: Ndb, ghost opening: Opening)
    returns (prepared: bool, crashed: bool)
    requires |answers| == |t.messages| && !t.released
    requires ndb.Valid() && ndb.open == |ndb.pending| < MAX_TRANSACTIONS && ndb.Balanced(sink, opening)
    requires !ndb.loop.waiting && ndb.loop.left > 0
    modifies sink, ndb`open, ndb`pending, ndb`jobs, ndb`events, ndb`loop
    ensures crashed == Run(t.id, t.messages, answers).crashed
    ensures !crashed ==> ndb.Valid() && ndb.open == |ndb.pending| && ndb.Balanced(sink, opening)
    ensures !crashed ==>
              ndb.events == old(ndb.events) + [Executed(t.Value(), answers, Run(t.id, t.messages, answers))]
    ensures !crashed ==>
              && |ndb.pending| == |old(ndb.pending)| + (if prepared then 1 else 0)
              && ndb.loop.left == old(ndb.loop.left) - 1
              && ndb.loop.total == old(ndb.loop.total) + (if prepared then 1 else 0)
              && ndb.loop.waiting == (ndb.loop.total == MAX_TRANSACTIONS)
    ensures forall p :: p in ndb.pending && p !in old(ndb.pending) ==> fresh(p) && p.tuple == t && p.sink == sink
  {
    hide Ndb.Valid;
    hide AfterCallback;
    hide PreparedIn;
    hide EndedIn;
    hide Run;
    hide PartsOf;
    hide Books;
    hide ReplyEnvelopes;
    hide Replay;
    prepared, crashed := ExecuteTuple(t, answers, sink, ndb);
    if crashed {
      return;
    }
    ghost var e := Executed(t.Value(), answers, Run(t.id, t.messages, answers));
    EnterEvent(opening.queue, opening.db, old(sink.queue), old(ndb.database), old(ndb.jobs), old(ndb.events), e,
               sink.queue, ndb.database, ndb.jobs);
    ReplayGrows(opening.tuples, ndb.events, e);
    ndb.loop := Follow(ndb.loop, e).value;
    ndb.events := ndb.events + [e];
  }

  // ---------------------------------------------------------------- callbacks and polls

  /** The success branch of the callback: one OperationResult per operation, in order. */
  method BuildResult(id: Bytes, operations: seq<Message>, fetched: seq<seq<Row>>) returns (result: Result)
    ensures result == CallbackReply(id, operations, Committed, fetched)
  {
    result := SuccessResult(id);
    var results := [];
    var i := 0;
    while i < |operations|
      invariant i <= |operations|
      invariant results == OperationResults(operations, fetched)[..i]
    {
      results := results + [OperationResultFor(operations[i], RowsAt(fetched, i))];
      i := i + 1;
    }
    result := result.(results := results);
  }

  /** ndbExecuteCallback: takes over the state, answers through a fresh copy of the identity. */
  method Callback(state: NdbTransactionState, verdict: Verdict, fetched: seq<seq<Row>>, ndb: Ndb)
    requires !state.released && !state.tuple.released && ndb.open > |ndb.pending|
    modifies state`released, state.sink, ndb`open
    ensures state.released && ndb.open == old(ndb.open) - 1
    ensures state.sink.queue
            == old(state.sink.queue)
               + EnvelopeParts(Completion(state.tuple.Value(), state.operations, verdict, fetched).Reply())
  {
    state.released := true;
    var newIdentifier := new ZmqMessage([]);
    newIdentifier.Copy(state.tuple.identity);
    var executionResult;
    match verdict {
      case Aborted(error) =>
        executionResult := ErrorResult(state.tuple.id, error.text, error.code);
      case Committed =>
        executionResult := BuildResult(state.tuple.id, state.operations, fetched);
    }
    ndb.CloseTransaction();
    ReplyWithResult(executionResult, newIdentifier, state.sink);
  }

  lemma OneReplyParts(e: Envelope)
    ensures PartsOf([e]) == EnvelopeParts(e)
  {
    assert [e][1..] == [];
  }

  lemma WithoutOne<T>(s: seq<T>, k: nat)
    requires k < |s|
    ensures multiset(s) == multiset(Without(s, k)) + multiset{s[k]}
  {
    assert s == s[..k] + [s[k]] + s[k + 1..];
  }

  /** The pending transactions are all for this sink. */
  ghost predicate AllFor(pending: seq<NdbTransactionState>, sink: ZmqSocket) {
    forall p :: p in pending ==> p.sink == sink
  }

  /** NDB ends the k-th pending transaction and calls back. */
  method EndTransaction(k: nat, verdict: Verdict, fetched: seq<seq<Row>>, sink: ZmqSocket, ndb: Ndb)
    returns (ghost c: Completion)
    requires ndb.Valid() && k < |ndb.pending| == ndb.open && AllFor(ndb.pending, sink)
    modifies ndb`open, ndb`pending, ndb`jobs, ndb`database, sink, ndb.pending
    ensures ndb.Valid() && ndb.open == |ndb.pending| == |old(ndb.pending)| - 1
    ensures forall p :: p in ndb.pending ==> p in old(ndb.pending)
    ensures sink.queue == old(sink.queue) + EnvelopeParts(c.Reply())
    ensures ndb.database == AfterCallback(old(ndb.database), c.operations, c.verdict)
    ensures k < |old(ndb.jobs)| && old(ndb.jobs)[k] == Job(c.tuple, c.operations)
    ensures ndb.jobs == Without(old(ndb.jobs), k)
  {
    hide EnvelopeParts;
    hide AfterCallback;
    hide CallbackReply;
    hide ReplyEnvelope;
    var state := ndb.TakePending(k);
    c := Completion(state.tuple.Value(), state.operations, verdict, fetched);
    ndb.database := AfterCallback(ndb.database, state.operations, verdict);
    Callback(state, verdict, fetched, ndb);
  }

  /** The same, entered in the books. */
  method CompleteOne(k: nat, verdict: Verdict, fetched: seq<seq<Row>>, sink: ZmqSocket, ndb: Ndb,
                     ghost opening: Opening)
    requires ndb.Valid() && k < |ndb.pending| == ndb.open
    requires AllFor(ndb.pending, sink) && ndb.Balanced(sink, opening)
    requires ndb.loop.waiting || ndb.loop.left == 0
    modifies ndb`open, ndb`pending, ndb`jobs, ndb`database, ndb`events, ndb`loop, sink, ndb.pending
    ensures ndb.Valid() && ndb.open == |ndb.pending| == |old(ndb.pending)| - 1
    ensures AllFor(ndb.pending, sink) && ndb.Balanced(sink, opening)
    ensures ExecutedIn(ndb.events) == ExecutedIn(old(ndb.events))
    ensures forall p :: p in ndb.pending ==> p in old(ndb.pending)
    ensures WaitsOn(ndb.loop, old(ndb.loop).left)
  {
    hide Ndb.Valid;
    hide RepliesOf;
    hide PreparedIn;
    hide EndedIn;
    hide DatabaseAfterAll;
    hide PartsOf;
    hide Books;
    hide ReplyEnvelope;
    hide EnvelopeParts;
    hide ExecutedIn;
    hide AfterCallback;
    hide CallbackReply;
    hide Replay;
    hide Without;
    ghost var c := EndTransaction(k, verdict, fetched, sink, ndb);
    OneReplyParts(c.Reply());
    ghost var e := Completed(k, c);
    WithoutOne(old(ndb.jobs), k);
    EnterEvent(opening.queue, opening.db, old(sink.queue), old(ndb.database), old(ndb.jobs), old(ndb.events), e,
               sink.queue, ndb.database, ndb.jobs);
    OneMoreEvent(ndb.events, e);
    ReplayGrows(opening.tuples, ndb.events, e);
    LastOneOut(old(ndb.jobs), k);
    ndb.loop := Follow(ndb.loop, e).value;
    ndb.events := ndb.events + [e];
  }

  lemma LastOneOut<T>(s: seq<T>, k: nat)
    requires k < |s|
    ensures |Without(s, k)| == |s| - 1 && (|s| == 1 ==> Without(s, k) == [])
  {
  }

  /** The loop while transactions complete: it waits as long as there are any, and then starts afresh. */
  predicate WaitsOn(l: Loop, left: nat) {
    l.left == left && if l.jobs == [] then l == Loop([], 0, false, left) else l.waiting || left == 0
  }

  /** sendPollNdb and pollNdb: any number of pending transactions end, in any order and any way. */
  method PollNdb(sink: ZmqSocket, ndb: Ndb, ghost opening: Opening) returns (completed: nat)
    requires ndb.Valid() && ndb.pending != [] && ndb.open == |ndb.pending|
    requires AllFor(ndb.pending, sink) && ndb.Balanced(sink, opening)
    requires WaitsOn(ndb.loop, ndb.loop.left)
    modifies ndb, sink, ndb.pending
    ensures ndb.Valid() && ndb.open == |ndb.pending| && |ndb.pending| + completed == |old(ndb.pending)|
    ensures AllFor(ndb.pending, sink) && ndb.Balanced(sink, opening)
    ensures ExecutedIn(ndb.events) == ExecutedIn(old(ndb.events))
    ensures forall p :: p in ndb.pending ==> p in old(ndb.pending)
    ensures completed == 0 ==> ndb.idlePolls < old(ndb.idlePolls)
    ensures WaitsOn(ndb.loop, old(ndb.loop).left)
  {
    hide Books;
    hide ExecutedIn;
    hide AfterCallback;
    hide PartsOf;
    hide RepliesOf;
    hide PreparedIn;
    hide EndedIn;
    hide DatabaseAfterAll;
    hide Replay;
    var reported: nat :| reported <= |ndb.pending|;
    if reported == 0 {
      if ndb.idlePolls > 0 {
        ndb.idlePolls := ndb.idlePolls - 1;
        return 0;
      }
      reported := 1;
    }
    ndb.idlePolls := *;
    completed := 0;
    while completed < reported
      invariant completed <= reported && ndb.Valid() && ndb.open == |ndb.pending|
      invariant |ndb.pending| + completed == |old(ndb.pending)|
      invariant AllFor(ndb.pending, sink) && ndb.Balanced(sink, opening)
      invariant ExecutedIn(ndb.events) == ExecutedIn(old(ndb.events))
      invariant forall p :: p in ndb.pending ==> p in old(ndb.pending)
      invariant WaitsOn(ndb.loop, old(ndb.loop).left)
    {
      var k: nat :| k < |ndb.pending|;
      var verdict: Verdict := *;
      var fetched: seq<seq<Row>> := *;
      assert forall i :: 0 <= i < |ndb.pending| ==> ndb.pending[i] in ndb.pending;
      CompleteOne(k, verdict, fetched, sink, ndb, opening);
      completed := completed + 1;
    }
  }

  /** Ends when as many have completed as were prepared, provided polls make progress in the end. */
  method WaitForTransactionsToComplete(totalTransactions: nat, sink: ZmqSocket, ndb: Ndb, ghost opening: Opening)
    requires ndb.Valid() && ndb.open == |ndb.pending| == totalTransactions
    requires AllFor(ndb.pending, sink) && ndb.Balanced(sink, opening)
    requires WaitsOn(ndb.loop, ndb.loop.left)
    modifies ndb, sink, ndb.pending
    ensures ndb.Valid() && ndb.open == 0 && ndb.pending == []
    ensures ndb.Balanced(sink, opening) && ExecutedIn(ndb.events) == ExecutedIn(old(ndb.events))
    ensures ndb.loop == Loop([], 0, false, old(ndb.loop).left)
  {
    hide Books;
    hide ExecutedIn;
    hide AfterCallback;
    hide PartsOf;
    hide RepliesOf;
    hide PreparedIn;
    hide EndedIn;
    hide DatabaseAfterAll;
    hide Replay;
    if totalTransactions > 0 {
      var completedTransactions := PollNdb(sink, ndb, opening);
      while completedTransactions < totalTransactions
        invariant completedTransactions + |ndb.pending| == totalTransactions
        invariant ndb.Valid() && ndb.open == |ndb.pending|
        invariant AllFor(ndb.pending, sink) && ndb.Balanced(sink, opening)
        invariant ExecutedIn(ndb.events) == ExecutedIn(old(ndb.events))
        invariant forall p :: p in ndb.pending ==> p in old(ndb.pending)
        invariant WaitsOn(ndb.loop, old(ndb.loop).left)
        decreases |ndb.pending|, ndb.idlePolls
      {
        assert forall i :: 0 <= i < |ndb.pending| ==> ndb.pending[i] in ndb.pending;
        var more := PollNdb(sink, ndb, opening);
        completedTransactions := completedTransactions + more;
      }
    }
  }

  // ---------------------------------------------------------------- batches

  /** A handed-over list of tuples behind a raw pointer; an executor adopts it once. */
  class TupleList {
    const tuples: seq<FrameMessagesTuple>
    var adopted: bool

    constructor (tuples: seq<FrameMessagesTuple>)
      ensures this.tuples == tuples && !adopted
    {
      this.tuples, adopted := tuples, false;
    }
  }

  predicate HaveAnswers(values: seq<TupleValue>, answers: seq<seq<Answer>>) {
    |answers| == |values| && forall i :: 0 <= i < |values| ==> |answers[i]| == |values[i].messages|
  }

  /** None of the tuples, so answered, crashes the executor. */
  ghost predicate Survives(values: seq<TupleValue>, answers: seq<seq<Answer>>)
    requires HaveAnswers(values, answers)
  {
    forall i :: 0 <= i < |values| ==> !Run(values[i].id, values[i].messages, answers[i]).crashed
  }

  /** None of the tuples of the lists does. */
  ghost predicate AllSurvive(values: seq<seq<TupleValue>>, answers: seq<seq<seq<Answer>>>)
    requires |answers| == |values| && forall i :: 0 <= i < |values| ==> HaveAnswers(values[i], answers[i])
  {
    forall i :: 0 <= i < |values| ==> Survives(values[i], answers[i])
  }

  /** The runs of the tuples of one list, in order. */
  function RunsOf(values: seq<TupleValue>, answers: seq<seq<Answer>>): (runs: seq<Event>)
    requires HaveAnswers(values, answers)
    ensures |runs| == |values|
  {
    seq(|values|, i requires 0 <= i < |values| => Executed(values[i], answers[i],
        Run(values[i].id, values[i].messages, answers[i])))
  }

  /** One pass of the tuple loop: executes the tuple, and flushes when 1024 transactions are prepared. */
  method RunAndFlush(t: FrameMessagesTuple, answers: seq<Answer>, sink: ZmqSocket, ndb: Ndb, total: nat,
                     ghost opening: Opening)
    returns (totalTransactions: nat, crashed: bool)
    requires |answers| == |t.messages| && !t.released
    requires ndb.Valid() && ndb.open == |ndb.pending| == total < MAX_TRANSACTIONS
    requires AllFor(ndb.pending, sink) && ndb.Balanced(sink, opening)
    requires !ndb.loop.waiting && ndb.loop.total == total && ndb.loop.left > 0
    modifies ndb, sink, ndb.pending
    ensures crashed == Run(t.id, t.messages, answers).crashed
    ensures !crashed ==> ndb.Valid() && ndb.open == |ndb.pending| == totalTransactions < MAX_TRANSACTIONS
    ensures !crashed ==> AllFor(ndb.pending, sink) && ndb.Balanced(sink, opening)
    ensures !crashed ==>
              ExecutedIn(ndb.events) == ExecutedIn(old(ndb.events))
                                        + [Executed(t.Value(), answers, Run(t.id, t.messages, answers))]
    ensures forall p :: p in ndb.pending ==> p in old(ndb.pending) || fresh(p)
    ensures !crashed ==>
              && !ndb.loop.waiting && ndb.loop.total == totalTransactions
              && ndb.loop.left == old(ndb.loop).left - 1
  {
    hide Replay;
    hide Books;
    hide ExecutedIn;
    hide AfterCallback;
    hide PartsOf;
    hide RepliesOf;
    hide PreparedIn;
    hide EndedIn;
    hide DatabaseAfterAll;
    hide Run;
    totalTransactions := total;
    OneMoreEvent(ndb.events, Executed(t.Value(), answers, Run(t.id, t.messages, answers)));
    var result;
    result, crashed := RunTuple(t, answers, sink, ndb, opening);
    if !crashed && result {
      totalTransactions := totalTransactions + 1;
      if totalTransactions == MAX_TRANSACTIONS {
        assert forall k :: 0 <= k < |ndb.pending| ==> ndb.pending[k] in ndb.pending;
        WaitForTransactionsToComplete(totalTransactions, sink, ndb, opening);
        totalTransactions := 0;
      }
    }
  }

  /** The tuple loop of one list: it crashes exactly when one of the tuples does. */
  method ExecuteList(list: TupleList, answers: seq<seq<Answer>>, sink: ZmqSocket, ndb: Ndb, total: nat,
                     ghost values: seq<TupleValue>, ghost opening: Opening)
    returns (totalTransactions: nat, crashed: bool)
    requires list.adopted && Represents(list.tuples, values)
    requires HaveAnswers(values, answers)
    requires ndb.Valid() && ndb.open == |ndb.pending| == total < MAX_TRANSACTIONS
    requires AllFor(ndb.pending, sink) && ndb.Balanced(sink, opening)
    requires !ndb.loop.waiting && ndb.loop.total == total && ndb.loop.left >= |values|
    modifies ndb, sink, ndb.pending
    ensures crashed <==> !Survives(values, answers)
    ensures !crashed ==> ndb.Valid() && ndb.open == |ndb.pending| == totalTransactions < MAX_TRANSACTIONS
    ensures !crashed ==> AllFor(ndb.pending, sink) && ndb.Balanced(sink, opening)
    ensures !crashed ==> ExecutedIn(ndb.events) == ExecutedIn(old(ndb.events)) + RunsOf(values, answers)
    ensures forall p :: p in ndb.pending ==> p in old(ndb.pending) || fresh(p)
    ensures !crashed ==>
              && !ndb.loop.waiting && ndb.loop.total == totalTransactions
              && ndb.loop.left == old(ndb.loop).left - |values|
  {
    hide Replay;
    hide Books;
    hide ExecutedIn;
    hide AfterCallback;
    hide PartsOf;
    hide RepliesOf;
    hide PreparedIn;
    hide EndedIn;
    hide DatabaseAfterAll;
    hide Run;
    totalTransactions, crashed := total, false;
    var i := 0;
    while i < |list.tuples|
      invariant i <= |list.tuples| && Represents(list.tuples, values) && !crashed
      invariant forall k :: 0 <= k < i ==> !Run(values[k].id, values[k].messages, answers[k]).crashed
      invariant ndb.Valid() && ndb.open == |ndb.pending| == totalTransactions < MAX_TRANSACTIONS
      invariant AllFor(ndb.pending, sink) && ndb.Balanced(sink, opening)
      invariant ExecutedIn(ndb.events) == ExecutedIn(old(ndb.events)) + RunsOf(values, answers)[..i]
      invariant forall p :: p in ndb.pending ==> p in old(ndb.pending) || fresh(p)
      invariant !ndb.loop.waiting && ndb.loop.total == totalTransactions
      invariant ndb.loop.left == old(ndb.loop).left - i
    {
      assert forall k :: 0 <= k < |ndb.pending| ==> ndb.pending[k] in ndb.pending;
      totalTransactions, crashed := RunAndFlush(list.tuples[i], answers[i], sink, ndb, totalTransactions, opening);
      assert list.tuples[i].Value() == values[i];
      if crashed {
        return;
      }
      i := i + 1;
    }
  }

  function AllRuns(values: seq<seq<TupleValue>>, answers: seq<seq<seq<Answer>>>): seq<Event>
    requires |answers| == |values| && forall i :: 0 <= i < |values| ==> HaveAnswers(values[i], answers[i])
  {
    if values == [] then []
    else
      var last := |values| - 1;
      AllRuns(values[..last], answers[..last]) + RunsOf(values[last], answers[last])
  }

  /** The number of tuples in the lists. */
  function TuplesIn(values: seq<seq<TupleValue>>): nat {
    if values == [] then 0 else TuplesIn(values[..|values| - 1]) + |values[|values| - 1]|
  }

  lemma {:induction false} TuplesInGrow(values: seq<seq<TupleValue>>, i: nat)
    requires i < |values|
    ensures TuplesIn(values[..i + 1]) == TuplesIn(values[..i]) + |values[i]| <= TuplesIn(values)
  {
    var last := |values| - 1;
    assert values[..i + 1][..i] == values[..i];
    if i < last {
      TuplesInGrow(values[..last], i);
      assert values[..last][..i + 1] == values[..i + 1] && values[..last][..i] == values[..i];
    } else {
      assert values[..i + 1] == values;
    }
  }

  lemma NoTuples(values: seq<seq<TupleValue>>)
    ensures TuplesIn(values[..0]) == 0
  {
  }

  lemma NothingYet(start: seq<Part>, base: Database)
    ensures Books(start, base, start, base, [], []) && ExecutedIn([]) == [] && AllRuns([], []) == []
    ensures AllSurvive([], [])
  {
    assert start + [] == start;
  }

  lemma AllRunsGrow(values: seq<seq<TupleValue>>, answers: seq<seq<seq<Answer>>>, i: nat)
    requires i < |values| == |answers| && forall k :: 0 <= k < |values| ==> HaveAnswers(values[k], answers[k])
    ensures AllRuns(values[..i + 1], answers[..i + 1]) == AllRuns(values[..i], answers[..i])
              + RunsOf(values[i], answers[i])
  {
    assert values[..i + 1][..i] == values[..i] && answers[..i + 1][..i] == answers[..i];
  }

  /** The lists are freed when the vector of their smart pointers goes out of scope. */
  method FreeLists(lists: seq<TupleList>)
    modifies set l, t | l in lists && t in l.tuples :: t`released
    ensures forall l, t :: l in lists && t in l.tuples ==> t.released
  {
    var i := 0;
    while i < |lists|
      invariant i <= |lists|
      invariant forall k :: 0 <= k < i ==> forall t :: t in lists[k].tuples ==> t.released
    {
      var j := 0;
      while j < |lists[i].tuples|
        invariant j <= |lists[i].tuples|
        invariant forall k :: 0 <= k < i ==> forall t :: t in lists[k].tuples ==> t.released
        invariant forall k :: 0 <= k < j ==> lists[i].tuples[k].released
      {
        assert lists[i] in lists && lists[i].tuples[j] in lists[i].tuples;
        lists[i].tuples[j].released := true;
        j := j + 1;
      }
      i := i + 1;
    }
  }

  /** The loop over the list pointers: each is adopted once, and its tuples are executed. */
  method ExecuteLists(lists: seq<TupleList>, answers: seq<seq<seq<Answer>>>, sink: ZmqSocket, ndb: Ndb,
                      ghost values: seq<seq<TupleValue>>, ghost opening: Opening)
    returns (totalTransactions: nat, crashed: bool)
    requires forall i, j :: 0 <= i < j < |lists| ==> lists[i] != lists[j]
    requires forall l :: l in lists ==> !l.adopted
    requires |values| == |lists| && forall i :: 0 <= i < |lists| ==> Represents(lists[i].tuples, values[i])
    requires |answers| == |values| && forall i :: 0 <= i < |values| ==> HaveAnswers(values[i], answers[i])
    requires ndb.Valid() && ndb.pending == [] && ndb.open == 0 && ndb.Balanced(sink, opening)
    requires ndb.events == [] && ndb.loop == Loop([], 0, false, TuplesIn(values))
    modifies ndb, sink, lists
    ensures crashed <==> !AllSurvive(values, answers)
    ensures !crashed ==> ndb.Valid() && ndb.open == |ndb.pending| == totalTransactions < MAX_TRANSACTIONS
    ensures !crashed ==> AllFor(ndb.pending, sink) && ndb.Balanced(sink, opening)
    ensures !crashed ==> ExecutedIn(ndb.events) == AllRuns(values, answers)
    ensures forall p :: p in ndb.pending ==> fresh(p)
    ensures !crashed ==> !ndb.loop.waiting && ndb.loop.total == totalTransactions && ndb.loop.left == 0
    ensures !crashed ==> forall l :: l in lists ==> l.adopted
  {
    hide Books;
    hide Represents;
    hide HaveAnswers;
    hide Survives;
    hide RunsOf;
    hide AfterCallback;
    hide RepliesOf;
    hide PreparedIn;
    hide EndedIn;
    hide DatabaseAfterAll;
    hide AllRuns;
    hide ExecutedIn;
    hide Run;
    hide PartsOf;
    hide TuplesIn;
    hide Replay;
    totalTransactions, crashed := 0, false;
    var i := 0;
    NothingYet(sink.queue, ndb.database);
    NoTuples(values);
    assert values[..0] == [] && answers[..0] == [];
    while i < |lists|
      invariant i <= |lists| && forall k :: 0 <= k < |lists| ==> Represents(lists[k].tuples, values[k])
      invariant !crashed && forall k :: 0 <= k < i ==> Survives(values[k], answers[k])
      invariant ndb.Valid() && ndb.open == |ndb.pending| == totalTransactions < MAX_TRANSACTIONS
      invariant AllFor(ndb.pending, sink) && ndb.Balanced(sink, opening)
      invariant ExecutedIn(ndb.events) == AllRuns(values[..i], answers[..i])
      invariant forall p :: p in ndb.pending ==> fresh(p)
      invariant forall k :: 0 <= k < |lists| ==> lists[k].adopted == (k < i)
      invariant !ndb.loop.waiting && ndb.loop.total == totalTransactions
      invariant ndb.loop.left == TuplesIn(values) - TuplesIn(values[..i])
    {
      TuplesInGrow(values, i);
      AllRunsGrow(values, answers, i);
      assert forall k :: 0 <= k < |ndb.pending| ==> ndb.pending[k] in ndb.pending;
      lists[i].adopted := true;
      totalTransactions, crashed :=
        ExecuteList(lists[i], answers[i], sink, ndb, totalTransactions, values[i], opening);
      if crashed {
        return;
      }
      i := i + 1;
    }
    assert values[..i] == values && answers[..i] == answers;
  }

  /**
   execute(StoreMsgs): adopts the list pointers, executes their tuples, waits for the last
   transactions, and only then frees the lists. It crashes exactly when one of the tuples does.
   */
  method ExecuteBatch(lists: seq<TupleList>, answers: seq<seq<seq<Answer>>>, sink: ZmqSocket, ndb: Ndb,
                      ghost values: seq<seq<TupleValue>>, ghost base: Database)
    returns (crashed: bool)
    requires forall i, j :: 0 <= i < j < |lists| ==> lists[i] != lists[j]
    requires forall l :: l in lists ==> !l.adopted
    requires |values| == |lists| && forall i :: 0 <= i < |lists| ==> Represents(lists[i].tuples, values[i])
    requires |answers| == |values| && forall i :: 0 <= i < |values| ==> HaveAnswers(values[i], answers[i])
    requires ndb.open == 0 && ndb.pending == [] && ndb.jobs == [] && ndb.events == [] && ndb.database == base
    modifies ndb, sink, lists, set l, t | l in lists && t in l.tuples :: t`released
    ensures crashed <==> !AllSurvive(values, answers)
    ensures !crashed ==> ndb.open == 0 && ndb.pending == [] && ndb.jobs == []
    ensures !crashed ==> Books(old(sink.queue), base, sink.queue, ndb.database, [], ndb.events)
    ensures !crashed ==> ExecutedIn(ndb.events) == AllRuns(values, answers)
    ensures !crashed ==> Replay(TuplesIn(values), ndb.events) == Some(Loop([], 0, false, 0))
    ensures !crashed ==> forall l :: l in lists ==> l.adopted && forall t :: t in l.tuples ==> t.released
  {
    hide Books;
    hide Represents;
    hide HaveAnswers;
    hide AllSurvive;
    hide AllRuns;
    hide ExecutedIn;
    hide TuplesIn;
    ghost var opening := Opening(sink.queue, base, TuplesIn(values));
    ndb.loop := Loop([], 0, false, opening.tuples);
    NothingYet(sink.queue, base);
    assert Replay(opening.tuples, []) == Some(ndb.loop);
    hide Replay;
    var totalTransactions;
    totalTransactions, crashed := ExecuteLists(lists, answers, sink, ndb, values, opening);
    if crashed {
      return;
    }
    if totalTransactions > 0 {
      assert forall k :: 0 <= k < |ndb.pending| ==> ndb.pending[k] in ndb.pending;
      WaitForTransactionsToComplete(totalTransactions, sink, ndb, opening);
    }
    FreeLists(lists);
  }

  // ---------------------------------------------------------------- what a batch amounts to

  function SumOfReplies(runs: seq<Event>): nat {
    if runs == [] then 0
    else
      var last := |runs| - 1;
      SumOfReplies(runs[..last]) + if runs[last].Executed? then NumReplies(runs[last].run) else 0
  }

  lemma {:induction false} RepliesAddUp(events: seq<Event>)
    ensures |RepliesOf(events)| + |PreparedIn(events)| == SumOfReplies(ExecutedIn(events)) + |EndedIn(events)|
  {
    if events != [] {
      var last := |events| - 1;
      var before := ExecutedIn(events[..last]);
      RepliesAddUp(events[..last]);
      assert (before + [events[last]])[..|before|] == before && before + [] == before;
    }
  }

  /**
   After a batch every prepared transaction has been answered once, by its own callback: the
   sink got as many replies as the runs call for.
   */
  lemma BatchReplyCount(start: seq<Part>, base: Database, queue: seq<Part>, db: Database, events: seq<Event>)
    requires Books(start, base, queue, db, [], events)
    ensures |RepliesOf(events)| == SumOfReplies(ExecutedIn(events))
    ensures forall job :: job in EndedIn(events) <==> job in PreparedIn(events)
  {
    RepliesAddUp(events);
    assert multiset(PreparedIn(events)) == multiset(EndedIn(events));
    assert |multiset(PreparedIn(events))| == |multiset(EndedIn(events))|;
    forall job
      ensures job in EndedIn(events) <==> job in PreparedIn(events)
    {
      assert job in multiset(EndedIn(events)) <==> job in multiset(PreparedIn(events));
    }
  }
}
