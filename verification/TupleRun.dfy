/**
 What the executor does with one transaction tuple, as a function of NDB's and MySQL's answers
 (NDBMessageExecutor.cpp): its replies, the operations it prepares, and the callback's reply.
 */
module TupleRuns {
  import opened Wrappers
  import opened Wire
  import opened Messages
  import opened ResultCodec
  import opened NdbTables
  import opened TableCreation
  import opened OperationCodec
  import opened ColumnCodec
  import GetPlanning

  datatype NdbError = NdbError(code: int32, text: Bytes)

  /**
   The answers to one message, all arbitrary: the error of a definition's query if it fails;
   whether a transaction can be started; whether NDB has no objection of its own to a new set or
   delete; what the dictionary says of the store; what NDB answers while a GET is planned; its last error.
   */
  datatype Answer = Answer(query: Option<Bytes>, starts: bool, accepts: bool, info: Option<TableInfo>,
      ndb: GetPlanning.NdbAnswers, error: NdbError)

  /** Whether the new operation is added to the started transaction. */
  function PlanFor(m: Message, a: Answer): GetPlanning.Plan {
    match m
    case Get(o) => GetPlanning.PlanOf(o, a.info, a.ndb)
    case Set(o) => GetPlanning.SetPlan(o, a.info, a.accepts)
    case Delete(o) => GetPlanning.DeletePlan(o, a.info, a.accepts)
    case _ => GetPlanning.Refused
  }

  /** The code reads store_info(0) of every set, get and delete, and the message need not have one. */
  predicate IsAddressed(m: Message) { m.IsManipulation() ==> m.operation.storeInfo != [] }

  // ---------------------------------------------------------------- replies

  /** makeResult. */
  function SuccessResult(id: Bytes): Result {
    ResultCodec.Result(Some(id), [], None, None, [])
  }

  /** makeResultForError: always with an error code, 0 by default. */
  function ErrorResult(id: Bytes, description: Bytes, code: int32): Result {
    ResultCodec.Result(Some(id), [], Some(code), Some(description), [])
  }

  /** runQuery. */
  function QueryResult(id: Bytes, query: Option<Bytes>): Result {
    match query
    case Some(error) => ErrorResult(id, error, 0)
    case None => SuccessResult(id)
  }

  /** The reply to a definition; a store without key columns is refused before any query. */
  function DefinitionResult(id: Bytes, m: Message, a: Answer): Result {
    match m
    case CreateStore(d) =>
      if TableOf(d).primaryKey == [] then ErrorResult(id, Ascii("No primary key indicated"), 0)
      else if TableOf(d).partitioning == [] then ErrorResult(id, Ascii("No distribution key indicated"), 0)
      else QueryResult(id, a.query)
    case _ => QueryResult(id, a.query)
  }

  function RefusalText(open: bool, error: Bytes): Bytes {
    if open then
      Ascii("Transaction started successfully, but error occured while adding query. ")
      + Ascii("Verify that columns flagged as primary or distributed keys and their corresponding types are correct.")
      + Ascii(" Internal error: ") + error
    else
      Ascii("Unable to start transaction. ")
      + Ascii("Verify that store name and distribution key information was provided correctly.")
  }

  /** The reply when the loop stops, by whether there is a transaction to give up. */
  function RefusalResult(id: Bytes, open: bool, a: Answer): Result {
    ErrorResult(id, RefusalText(open, a.error.text), if open then a.error.code else 0)
  }

  // ---------------------------------------------------------------- the loop over the messages

  /**
   `open`: the transaction is started; `stopped`: the loop was left after an error; `crashed`: the
   message after the processed ones made the code dereference what is not there.
   */
  datatype RunState = RunState(replies: seq<Result>, open: bool, operations: seq<Message>, stopped: bool,
      crashed: bool, processed: nat)
  {
    predicate IsOver() { stopped || crashed }
  }

  const BEGIN := RunState([], false, [], false, false, 0)

  /** Whether the transaction is open when message m is about to be added to it. */
  predicate OpenFor(s: RunState, m: Message, a: Answer) { s.open || (m.IsManipulation() && a.starts) }

  predicate CrashesOn(s: RunState, m: Message, a: Answer) {
    m.IsManipulation() && (!IsAddressed(m) || (OpenFor(s, m, a) && PlanFor(m, a) == GetPlanning.Crashed))
  }

  function TakeMessage(id: Bytes, s: RunState, m: Message, a: Answer): RunState {
    hide RefusalText;
    hide DefinitionResult;
    hide PlanFor;
    if m.IsDefinition() then
      s.(replies := s.replies + [DefinitionResult(id, m, a)], processed := s.processed + 1)
    else if CrashesOn(s, m, a) then
      RunState(s.replies, false, [], false, true, s.processed)
    else if OpenFor(s, m, a) && PlanFor(m, a) == GetPlanning.Accepted then
      RunState(s.replies, true, s.operations + [m], false, false, s.processed + 1)
    else
      RunState(s.replies + [RefusalResult(id, OpenFor(s, m, a), a)], false, [], true, false, s.processed + 1)
  }

  /** The state after the loop: one that is over takes no more messages. */
  function Run(id: Bytes, ms: seq<Message>, answers: seq<Answer>): RunState
    requires |answers| == |ms|
  {
    if ms == [] then BEGIN
    else
      var last := |ms| - 1;
      var s := Run(id, ms[..last], answers[..last]);
      if s.IsOver() then s else TakeMessage(id, s, ms[last], answers[last])
  }

  function NumDefinitions(ms: seq<Message>): nat {
    if ms == [] then 0
    else
      var last := |ms| - 1;
      NumDefinitions(ms[..last]) + if ms[last].IsDefinition() then 1 else 0
  }

  /** The messages that are not definitions. */
  function Operations(ms: seq<Message>): seq<Message> {
    if ms == [] then []
    else
      var last := |ms| - 1;
      Operations(ms[..last]) + if ms[last].IsDefinition() then [] else [ms[last]]
  }

  lemma RunStep(id: Bytes, ms: seq<Message>, answers: seq<Answer>, i: nat)
    requires |answers| == |ms| && i < |ms|
    ensures var s := Run(id, ms[..i], answers[..i]);
            Run(id, ms[..i + 1], answers[..i + 1]) == if s.IsOver() then s else TakeMessage(id, s, ms[i], answers[i])
  {
    hide RefusalText;
    hide DefinitionResult;
    assert ms[..i + 1][..i] == ms[..i] && answers[..i + 1][..i] == answers[..i];
  }

  /** What every state of the loop looks like. */
  ghost predicate GoodState(s: RunState, ms: seq<Message>) {
    && s.processed <= |ms|
    && |s.replies| == NumDefinitions(ms[..s.processed]) + (if s.stopped then 1 else 0)
    && if s.stopped then
         && s.processed > 0 && !s.open && s.operations == [] && !s.crashed
         && !ms[s.processed - 1].IsDefinition() && s.replies[|s.replies| - 1].errorCode.Some?
       else if s.crashed then
         s.processed < |ms| && !s.open && s.operations == [] && ms[s.processed].IsManipulation()
       else
         && s.processed == |ms| && s.operations == Operations(ms) && (s.open <==> s.operations != [])
         && forall m :: m in s.operations ==> m.IsManipulation() && IsAddressed(m)
  }

  lemma OnlyManipulationsAreAdded(m: Message, a: Answer)
    ensures PlanFor(m, a) == GetPlanning.Accepted ==> m.IsManipulation()
  {
  }

  lemma CountsSnoc(ms: seq<Message>, m: Message)
    ensures NumDefinitions(ms + [m]) == NumDefinitions(ms) + if m.IsDefinition() then 1 else 0
    ensures Operations(ms + [m]) == Operations(ms) + if m.IsDefinition() then [] else [m]
  {
    assert (ms + [m])[..|ms|] == ms;
  }

  lemma StepIsGood(id: Bytes, s: RunState, ms: seq<Message>, m: Message, a: Answer)
    requires GoodState(s, ms) && !s.IsOver()
    ensures GoodState(TakeMessage(id, s, m, a), ms + [m])
  {
    hide RefusalText;
    hide PlanFor;
    hide DefinitionResult;
    hide NumDefinitions;
    hide Operations;
    OnlyManipulationsAreAdded(m, a);
    CountsSnoc(ms, m);
    assert ms[..|ms|] == ms == (ms + [m])[..|ms|] && (ms + [m])[..|ms| + 1] == ms + [m];
  }

  lemma {:induction false} RunsWell(id: Bytes, ms: seq<Message>, answers: seq<Answer>)
    requires |answers| == |ms|
    ensures GoodState(Run(id, ms, answers), ms)
  {
    hide TakeMessage;
    if ms == [] {
      assert ms[..0] == [];
    } else {
      var last := |ms| - 1;
      var s := Run(id, ms[..last], answers[..last]);
      RunsWell(id, ms[..last], answers[..last]);
      if s.IsOver() {
        assert ms[..last][..s.processed] == ms[..s.processed];
      } else {
        StepIsGood(id, s, ms[..last], ms[last], answers[last]);
        assert ms == ms[..last] + [ms[last]];
      }
    }
  }

  // ---------------------------------------------------------------- one message, by its type

  /**
   A message that creates or drops a database or a store is answered at once and the loop goes on with the
   transaction as it was. The reply is the query's, but a store without a key column of either kind is refused.
   */
  lemma DefinitionsAreCarriedOut(id: Bytes, s: RunState, m: Message, a: Answer)
    requires m.CreateDatabase? || m.DropDatabase? || m.CreateStore? || m.DropStore?
    requires !s.IsOver()
    ensures var next := TakeMessage(id, s, m, a);
            && |next.replies| == |s.replies| + 1 && next.replies[..|s.replies|] == s.replies
            && next.open == s.open && next.operations == s.operations && !next.stopped && !next.crashed
            && next.processed == s.processed + 1
    ensures var reply := TakeMessage(id, s, m, a).replies[|s.replies|];
            && reply.transactionIdentifier == Some(id) && reply.results == []
            && if m.CreateStore? && forall c :: c in m.definition.columns ==> c.primaryKey.None? then
                 reply.errorCode == Some(0) && reply.errorDescription == Some(Ascii("No primary key indicated"))
               else if m.CreateStore? && forall c :: c in m.definition.columns ==> c.distributionKey.None? then
                 reply.errorCode == Some(0) && reply.errorDescription == Some(Ascii("No distribution key indicated"))
               else
                 reply.errorCode == (if a.query.Some? then Some(0) else None) && reply.errorDescription == a.query
  {
    hide RefusalText;
    hide PlanFor;
    hide Ascii;
    if m.CreateStore? {
      KeyListsAreEmpty(m.definition);
    }
  }

  /**
   A set, get or delete is added without a reply, in a transaction that is open or can be started, or it
   ends the loop: by a crash without a store or on an unknown column, or else with one error reply. Any
   other message always ends it.
   */
  lemma OperationsAreAddedOrEndIt(id: Bytes, s: RunState, m: Message, a: Answer)
    requires !(m.CreateDatabase? || m.DropDatabase? || m.CreateStore? || m.DropStore?)
    requires !s.IsOver()
    ensures var next := TakeMessage(id, s, m, a);
            var isOperation := m.Set? || m.Get? || m.Delete?;
            && (next.crashed <==>
                  && isOperation
                  && (m.operation.storeInfo == []
                      || ((s.open || a.starts) && PlanFor(m, a) == GetPlanning.Crashed)))
            && (!next.stopped && !next.crashed <==>
                  && isOperation && m.operation.storeInfo != [] && (s.open || a.starts)
                  && PlanFor(m, a) == GetPlanning.Accepted)
            && (!next.stopped && !next.crashed ==>
                  && next.replies == s.replies && next.open && next.operations == s.operations + [m]
                  && next.processed == s.processed + 1)
            && (next.crashed ==> next.replies == s.replies && !next.open && next.operations == [])
            && (next.stopped ==>
                  && |next.replies| == |s.replies| + 1 && next.replies[..|s.replies|] == s.replies
                  && !next.open && next.operations == [] && next.processed == s.processed + 1)
  {
    hide RefusalText;
    hide DefinitionResult;
    hide PlanFor;
    OnlyManipulationsAreAdded(m, a);
  }

  lemma {:induction false} StoppedAtTheLast(id: Bytes, ms: seq<Message>, answers: seq<Answer>)
    requires |answers| == |ms| && Run(id, ms, answers).stopped
    ensures var s := Run(id, ms, answers);
            && 0 < s.processed <= |ms|
            && !Run(id, ms[..s.processed - 1], answers[..s.processed - 1]).IsOver()
            && s == TakeMessage(id, Run(id, ms[..s.processed - 1], answers[..s.processed - 1]),
                                ms[s.processed - 1], answers[s.processed - 1])
  {
    hide TakeMessage;
    hide PlanFor;
    var last := |ms| - 1;
    var before := Run(id, ms[..last], answers[..last]);
    var s := Run(id, ms, answers);
    if before.IsOver() {
      StoppedAtTheLast(id, ms[..last], answers[..last]);
      assert ms[..last][..s.processed - 1] == ms[..s.processed - 1];
      assert answers[..last][..s.processed - 1] == answers[..s.processed - 1];
    } else {
      RunsWell(id, ms[..last], answers[..last]);
      TakesOne(id, before, ms[last], answers[last]);
    }
  }

  lemma TakesOne(id: Bytes, s: RunState, m: Message, a: Answer)
    ensures TakeMessage(id, s, m, a).stopped ==> TakeMessage(id, s, m, a).processed == s.processed + 1 || s.stopped
  {
    hide RefusalText;
    hide DefinitionResult;
    hide PlanFor;
  }

  lemma OpenAfterOne(id: Bytes, s: RunState, m: Message, a: Answer)
    requires !s.IsOver() && !TakeMessage(id, s, m, a).IsOver()
    ensures TakeMessage(id, s, m, a).open <==> s.open || m.Set? || m.Get? || m.Delete?
  {
    hide RefusalText;
    hide DefinitionResult;
    hide PlanFor;
    OnlyManipulationsAreAdded(m, a);
  }

  lemma {:induction false} OpenAfterOperations(id: Bytes, ms: seq<Message>, answers: seq<Answer>)
    requires |answers| == |ms| && !Run(id, ms, answers).IsOver()
    ensures Run(id, ms, answers).open <==> exists m :: m in ms && (m.Set? || m.Get? || m.Delete?)
  {
    hide TakeMessage;
    if ms != [] {
      var last := |ms| - 1;
      OpenAfterOperations(id, ms[..last], answers[..last]);
      assert ms == ms[..last] + [ms[last]];
      OpenAfterOne(id, Run(id, ms[..last], answers[..last]), ms[last], answers[last]);
    }
  }

  lemma PiecesOf(a: Bytes, b: Bytes, c: Bytes, error: Bytes)
    ensures var text := a + b + c + error;
            a <= text && |text| >= |error| && text[|text| - |error|..] == error
  {
    assert (a + b + c + error)[|a + b + c|..] == error;
  }

  /** Behind a started transaction NDB's error is told, after a text of its own; without one it is not. */
  lemma RefusalTexts(error: Bytes)
    ensures var text := RefusalText(true, error);
            && Ascii("Transaction started successfully, but error occured while adding query. ") <= text
            && |text| >= |error| && text[|text| - |error|..] == error
    ensures RefusalText(false, error)
            == Ascii("Unable to start transaction. ")
               + Ascii("Verify that store name and distribution key information was provided correctly.")
  {
    hide Ascii;
    PiecesOf(Ascii("Transaction started successfully, but error occured while adding query. "),
      Ascii("Verify that columns flagged as primary or distributed keys and their corresponding types are correct."),
      Ascii(" Internal error: "), error);
  }

  lemma ErrorIsTold(error: Bytes)
    ensures |RefusalText(true, error)| >= |error|
    ensures RefusalText(true, error)[|RefusalText(true, error)| - |error|..] == error
    ensures RefusalText(false, error) == RefusalText(false, [])
  {
    RefusalTexts(error);
  }

  lemma RefusedByTake(id: Bytes, s: RunState, m: Message, a: Answer)
    requires TakeMessage(id, s, m, a).stopped && !s.IsOver()
    ensures var next := TakeMessage(id, s, m, a);
            next.replies == s.replies
            + [RefusalResult(id, s.open || ((m.Set? || m.Get? || m.Delete?) && a.starts), a)]
  {
    hide RefusalText;
    hide DefinitionResult;
    hide PlanFor;
  }

  /**
   The reply of a tuple whose loop is left at message k: NDB's code and text when a transaction was started
   by then, for an operation before k or for k itself, and otherwise code 0 and a fixed text.
   */
  lemma RefusalsTellWhy(id: Bytes, ms: seq<Message>, answers: seq<Answer>)
    requires |answers| == |ms| && Run(id, ms, answers).stopped
    ensures var s := Run(id, ms, answers);
            && 0 < s.processed <= |ms| && s.replies != []
            && var k := s.processed - 1;
            var reply := s.replies[|s.replies| - 1];
            var error := answers[k].error;
            && reply.transactionIdentifier == Some(id) && reply.results == [] && reply.errorDescription.Some?
            && var text := reply.errorDescription.value;
            if (exists m :: m in ms[..k] && (m.Set? || m.Get? || m.Delete?))
               || ((ms[k].Set? || ms[k].Get? || ms[k].Delete?) && answers[k].starts) then
              && reply.errorCode == Some(error.code) && text == RefusalText(true, error.text)
              && |text| >= |error.text| && text[|text| - |error.text|..] == error.text
            else
              reply.errorCode == Some(0) && text == RefusalText(false, [])
  {
    hide Run;
    hide TakeMessage;
    hide RefusalText;
    var s := Run(id, ms, answers);
    StoppedAtTheLast(id, ms, answers);
    var k := s.processed - 1;
    var before := Run(id, ms[..k], answers[..k]);
    OpenAfterOperations(id, ms[..k], answers[..k]);
    RefusedByTake(id, before, ms[k], answers[k]);
    ErrorIsTold(answers[k].error.text);
  }

  lemma OpenMeansNoCrash(id: Bytes, ms: seq<Message>, answers: seq<Answer>)
    requires |answers| == |ms|
    ensures Run(id, ms, answers).open ==> !Run(id, ms, answers).IsOver()
  {
    RunsWell(id, ms, answers);
  }

  // ---------------------------------------------------------------- number of replies

  /** One reply per definition, and one for everything else together. */
  function ExpectedReplies(ms: seq<Message>): nat {
    NumDefinitions(ms) + if Operations(ms) == [] then 0 else 1
  }

  /** The reply of the later callback counts when a transaction is prepared. */
  function NumReplies(s: RunState): nat { |s.replies| + if s.open then 1 else 0 }

  lemma {:induction false} OperationsContain(ms: seq<Message>, k: nat)
    requires k < |ms| && !ms[k].IsDefinition()
    ensures ms[k] in Operations(ms)
  {
    var last := |ms| - 1;
    if k < last {
      OperationsContain(ms[..last], k);
    }
  }

  lemma {:induction false} DefinitionsByType(ms: seq<Message>)
    ensures NumDefinitions(ms)
            == |Select(ms, (m: Message) => m.CreateDatabase? || m.DropDatabase? || m.CreateStore? || m.DropStore?)|
    ensures NumDefinitions(ms) + |Operations(ms)| == |ms|
  {
    if ms != [] {
      DefinitionsByType(ms[..|ms| - 1]);
    }
  }

  /** Two stores dropped by one tuple: two replies, each of which says how its own query went. */
  lemma TwoDropsTwoReplies(id: Bytes, d: StoreDefinition, d': StoreDefinition, a: Answer, a': Answer)
    ensures var s := Run(id, [DropStore(d), DropStore(d')], [a, a']);
            && !s.IsOver() && !s.open && |s.replies| == 2
            && (s.replies[0].errorCode.None? <==> a.query.None?)
            && (s.replies[1].errorCode.None? <==> a'.query.None?)
  {
    hide TakeMessage;
    var (ms, answers) := ([DropStore(d), DropStore(d')], [a, a']);
    RunStep(id, ms, answers, 0);
    RunStep(id, ms, answers, 1);
    assert ms[..2] == ms && answers[..2] == answers && ms[..0] == [] && answers[..0] == [];
    DefinitionsAreCarriedOut(id, BEGIN, ms[0], a);
    DefinitionsAreCarriedOut(id, Run(id, ms[..1], answers[..1]), ms[1], a');
  }

  /** A crash takes the reply to the operations with it, but not those to earlier definitions. */
  lemma ReplyCount(id: Bytes, ms: seq<Message>, answers: seq<Answer>)
    requires |answers| == |ms|
    ensures var s := Run(id, ms, answers);
            && s.processed <= |ms|
            && NumReplies(s) == if s.crashed then NumDefinitions(ms[..s.processed])
                                else ExpectedReplies(ms[..s.processed])
    ensures var s := Run(id, ms, answers);
            var definitions := Select(ms[..s.processed], (m: Message) =>
                m.CreateDatabase? || m.DropDatabase? || m.CreateStore? || m.DropStore?);
            && |s.replies| + (if s.open then 1 else 0)
               == |definitions| + if s.crashed || |definitions| == s.processed then 0 else 1
  {
    hide Run;
    hide Select;
    RunsWell(id, ms, answers);
    var s := Run(id, ms, answers);
    DefinitionsByType(ms[..s.processed]);
    if s.stopped {
      OperationsContain(ms[..s.processed], s.processed - 1);
    } else if !s.crashed {
      assert ms[..s.processed] == ms;
    }
  }

  lemma {:induction false} PureOperations(ms: seq<Message>)
    requires forall m :: m in ms ==> !m.IsDefinition()
    ensures NumDefinitions(ms) == 0 && Operations(ms) == ms
  {
    if ms != [] {
      var last := |ms| - 1;
      PureOperations(ms[..last]);
      assert ms[last] in ms && ms == ms[..last] + [ms[last]];
    }
  }

  /**
   Exactly one reply to a tuple of set, get and delete operations, and none to an empty tuple or to
   one that crashes the executor.
   */
  lemma {:induction false} PureTupleGetsOneReply(id: Bytes, ms: seq<Message>, answers: seq<Answer>)
    requires |answers| == |ms| && forall m :: m in ms ==> !m.IsDefinition()
    ensures var s := Run(id, ms, answers); NumReplies(s) == if ms == [] || s.crashed then 0 else 1
  {
    var s := Run(id, ms, answers);
    ReplyCount(id, ms, answers);
    RunsWell(id, ms, answers);
    PureOperations(ms[..s.processed]);
  }

  function DefinitionReplies(id: Bytes, ms: seq<Message>, answers: seq<Answer>): seq<Result>
    requires |answers| == |ms|
  {
    if ms == [] then []
    else
      var last := |ms| - 1;
      DefinitionReplies(id, ms[..last], answers[..last])
      + if ms[last].IsDefinition() then [DefinitionResult(id, ms[last], answers[last])] else []
  }

  /** A tuple whose transaction is prepared has had no error reply besides those to definitions. */
  lemma {:induction false} NoErrorBeforeCommit(id: Bytes, ms: seq<Message>, answers: seq<Answer>)
    requires |answers| == |ms| && !Run(id, ms, answers).IsOver()
    ensures Run(id, ms, answers).replies == DefinitionReplies(id, ms, answers)
  {
    hide RefusalText;
    if ms != [] {
      var last := |ms| - 1;
      NoErrorBeforeCommit(id, ms[..last], answers[..last]);
    }
  }

  lemma {:induction false} OverStays(id: Bytes, ms: seq<Message>, answers: seq<Answer>, j: nat)
    requires |answers| == |ms| && j <= |ms| && Run(id, ms[..j], answers[..j]).IsOver()
    ensures Run(id, ms, answers) == Run(id, ms[..j], answers[..j])
  {
    hide TakeMessage;
    if j == |ms| {
      assert ms[..j] == ms && answers[..j] == answers;
    } else {
      var last := |ms| - 1;
      assert ms[..last][..j] == ms[..j] && answers[..last][..j] == answers[..j];
      OverStays(id, ms[..last], answers[..last], j);
    }
  }

  /** A definition's reply has no error code exactly when its query ran and succeeded. */
  lemma DefinitionIsAnswered(id: Bytes, m: Message, a: Answer)
    requires m.IsDefinition()
    ensures var r := DefinitionResult(id, m, a);
            var refused := m.CreateStore? &&
                (TableOf(m.definition).primaryKey == [] || TableOf(m.definition).partitioning == []);
            && r.transactionIdentifier == Some(id) && r.results == []
            && (r.errorCode.None? <==> !refused && a.query.None?)
            && (!refused && a.query.Some? ==> r.errorDescription == a.query)
  {
  }

  /** Every reply names the tuple's transaction. */
  lemma {:induction false} RepliesCarryTheId(id: Bytes, ms: seq<Message>, answers: seq<Answer>)
    requires |answers| == |ms|
    ensures forall r :: r in Run(id, ms, answers).replies ==> r.transactionIdentifier == Some(id)
  {
    hide RefusalText;
    if ms != [] {
      var last := |ms| - 1;
      RepliesCarryTheId(id, ms[..last], answers[..last]);
      if ms[last].IsDefinition() {
        DefinitionIsAnswered(id, ms[last], answers[last]);
      }
    }
  }

  /** After a refusal at message k nothing later is processed and nothing stays prepared. */
  lemma NothingAfterARefusal(id: Bytes, ms: seq<Message>, answers: seq<Answer>, k: nat)
    requires |answers| == |ms| && k < |ms|
    requires !Run(id, ms[..k], answers[..k]).IsOver() && Run(id, ms[..k + 1], answers[..k + 1]).stopped
    ensures Run(id, ms, answers) == Run(id, ms[..k + 1], answers[..k + 1])
    ensures var s := Run(id, ms, answers); s.processed == k + 1 && s.operations == [] && !s.open
  {
    hide PlanFor;
    hide NumDefinitions;
    hide Operations;
    hide Run;
    hide RefusalText;
    hide DefinitionResult;
    OverStays(id, ms, answers, k + 1);
    RunStep(id, ms, answers, k);
    RunsWell(id, ms[..k], answers[..k]);
  }

  // ---------------------------------------------------------------- the callback

  /** How NDB ended the transaction. */
  datatype Verdict = Aborted(error: NdbError) | Committed

  function OperationResultFor(m: Message, rows: seq<Row>): OperationResult {
    ResultCodec.OperationResult(if m.Get? then rows else [], Some(m.FrameType()), [])
  }

  /** The rows found by operation i, none if it is not a GET. */
  function RowsAt(fetched: seq<seq<Row>>, i: nat): seq<Row> {
    if i < |fetched| then fetched[i] else []
  }

  function OperationResults(ms: seq<Message>, fetched: seq<seq<Row>>): (results: seq<OperationResult>)
    ensures |results| == |ms|
  {
    seq(|ms|, i requires 0 <= i < |ms| => OperationResultFor(ms[i], RowsAt(fetched, i)))
  }

  /** ndbExecuteCallback's reply; `fetched` are the rows each GET finds. */
  function CallbackReply(id: Bytes, operations: seq<Message>, verdict: Verdict, fetched: seq<seq<Row>>): Result {
    match verdict
    case Aborted(error) => ErrorResult(id, error.text, error.code)
    case Committed => SuccessResult(id).(results := OperationResults(operations, fetched))
  }

  /** NDB commits all operations or none. */
  function AfterCallback(db: Database, operations: seq<Message>, verdict: Verdict): Database {
    if verdict.Committed? then Effects(db, operations) else db
  }

  /**
   The callback's reply: NDB's code and text when the transaction was aborted, and otherwise one
   OperationResult per operation, in message order and of its type, with the rows of a GET.
   */
  lemma CallbackReplies(id: Bytes, operations: seq<Message>, verdict: Verdict, fetched: seq<seq<Row>>)
    requires |fetched| == |operations| && forall m :: m in operations ==> m.Set? || m.Get? || m.Delete?
    ensures var reply := CallbackReply(id, operations, verdict, fetched);
            && reply.transactionIdentifier == Some(id) && reply.unknown == []
            && match verdict
               case Aborted(error) =>
                 && reply.results == []
                 && reply.errorCode == Some(error.code) && reply.errorDescription == Some(error.text)
               case Committed =>
                 && |reply.results| == |operations| && reply.errorCode == None && reply.errorDescription == None
                 && forall i :: 0 <= i < |operations| ==>
                      var m := operations[i];
                      && reply.results[i].typ == Some(if m.Set? then 6 else if m.Get? then 7 else 8)
                      && reply.results[i].rows == (if operations[i].Get? then fetched[i] else [])
                      && reply.results[i].unknown == []
  {
    forall i | 0 <= i < |operations|
      ensures operations[i].Set? || operations[i].Get? || operations[i].Delete?
    {
      assert operations[i] in operations;
    }
  }

  ghost predicate ReadableRows(rows: seq<Row>) { forall r :: r in rows ==> r.WellFormed() && r.IsInitialized() }

  /** The code stores NDB's own number of a column's type, which need not be one of the protocol's. */
  lemma RowsAreReadableExactlyWhen(info: TableInfo, records: seq<TableRow>)
    ensures ReadableRows(GetPlanning.RowsOf(info, records))
            <==> records == [] || forall c :: c in info.columns ==> ColumnTypeIsValid(c.typ)
  {
    var rows := GetPlanning.RowsOf(info, records);
    if records != [] {
      assert rows[0] in rows;
      forall c | c in info.columns && rows[0].WellFormed()
        ensures ColumnTypeIsValid(c.typ)
      {
        var i :| 0 <= i < |info.columns| && info.columns[i] == c;
        assert rows[0].columns[i] in rows[0].columns;
      }
      forall r | r in rows && forall c :: c in info.columns ==> ColumnTypeIsValid(c.typ)
        ensures r.WellFormed() && r.IsInitialized()
      {
        assert exists k :: 0 <= k < |records| && r == GetPlanning.RowOf(info, records[k]);
      }
    }
  }

  lemma OperationResultIsReadable(m: Message, rows: seq<Row>)
    requires m.IsManipulation()
    ensures var o := OperationResultFor(m, rows);
            o.WellFormed() && o.IsInitialized() <==> (m.Get? ==> ReadableRows(rows))
  {
    hide ResultCodec.Row.WellFormed;
    hide ResultCodec.Row.IsInitialized;
  }

  /** A committed tuple's reply can be serialised, and is complete, exactly when the rows its GETs found are. */
  lemma CommittedReplyIsReadable(id: Bytes, operations: seq<Message>, fetched: seq<seq<Row>>)
    requires forall m :: m in operations ==> m.IsManipulation()
    ensures var r := CallbackReply(id, operations, Committed, fetched);
            r.WellFormed() && r.IsInitialized()
            <==> forall i :: 0 <= i < |operations| && operations[i].Get? ==> ReadableRows(RowsAt(fetched, i))
  {
    hide ReadableRows;
    hide OperationResult.WellFormed;
    hide OperationResult.IsInitialized;
    hide OperationResultFor;
    var r := CallbackReply(id, operations, Committed, fetched);
    forall i | 0 <= i < |operations|
      ensures r.results[i].WellFormed() && r.results[i].IsInitialized()
              <==> (operations[i].Get? ==> ReadableRows(RowsAt(fetched, i)))
    {
      assert operations[i] in operations;
      OperationResultIsReadable(operations[i], RowsAt(fetched, i));
    }
    assert forall i :: 0 <= i < |operations| ==> r.results[i] in r.results;
  }

  // ---------------------------------------------------------------- all or nothing

  /** Everything a tuple is answered, the callback's reply included. */
  function AllReplies(id: Bytes, s: RunState, verdict: Verdict, fetched: seq<seq<Row>>): seq<Result> {
    s.replies + if s.open then [CallbackReply(id, s.operations, verdict, fetched)] else []
  }

  function DatabaseAfter(db: Database, s: RunState, verdict: Verdict): Database {
    if s.open then AfterCallback(db, s.operations, verdict) else db
  }

  /**
   For a tuple of set, get and delete operations: the one reply lacks an error code exactly when
   all operations took effect in order, and otherwise the database is unchanged, as it is without
   any reply when the executor crashes.
   */
  lemma AllOrNothing(id: Bytes, ms: seq<Message>, answers: seq<Answer>, verdict: Verdict, fetched: seq<seq<Row>>,
                     db: Database)
    requires |answers| == |ms| && ms != [] && forall m :: m in ms ==> !m.IsDefinition()
    ensures var s := Run(id, ms, answers);
            var replies := AllReplies(id, s, verdict, fetched);
            if s.crashed then replies == [] && DatabaseAfter(db, s, verdict) == db
            else
              && |replies| == 1
              && (replies[0].errorCode.None? <==> s.open && verdict.Committed?)
              && DatabaseAfter(db, s, verdict) == if replies[0].errorCode.None? then Effects(db, ms) else db
  {
    hide Run;
    hide Effects;
    hide Operations;
    hide NumDefinitions;
    var s := Run(id, ms, answers);
    RunsWell(id, ms, answers);
    PureOperations(ms);
    PureTupleGetsOneReply(id, ms, answers);
    if s.open {
      assert s.replies == [] && s.operations == ms;
    } else if !s.crashed {
      OperationsContain(ms, 0);
      assert s.stopped;
    }
  }
}
