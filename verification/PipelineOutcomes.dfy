/** What the replies and the tables of the pipeline amount to, and which requests crash the server. */
module PipelineOutcomes {
  import opened Wrappers
  import opened Wire
  import opened Messages
  import opened ResultCodec
  import opened FrameDecoding
  import opened Transport
  import opened Requests
  import opened NdbTables
  import opened OperationCodec
  import opened Commits
  import GetPlanning
  import opened TableIntegrity
  import opened TupleRuns
  import opened TupleCrashes
  import opened Execution
  import opened Pipeline
  import opened PipelinePlaces
  import opened PipelineReplies
  import opened PipelineSafety

  // ---------------------------------------------------------------- one reply that tells the outcome

  lemma OneReplyToItem(item: Item) returns (r: Result)
    requires ItemOk(item) && item.place.IsFinished()
    requires item.tuple.messages != [] && forall m :: m in item.tuple.messages ==> !m.IsDefinition()
    ensures item.replies == [ReplyEnvelope(item.tuple.identity, r)]
    ensures r.errorCode.None? <==> item.place.Ended? && item.place.verdict.Committed?
  {
    hide Run;
    hide ReplyEnvelope;
    var t, answers := item.tuple, item.place.answers;
    var verdict := if item.place.Ended? then item.place.verdict else Committed;
    var fetched := if item.place.Ended? then item.place.fetched else [];
    var run := Run(t.id, t.messages, answers);
    OpenMeansNoCrash(t.id, t.messages, answers);
    AllOrNothing(t.id, t.messages, answers, verdict, fetched, map[]);
    var replies := AllReplies(t.id, run, verdict, fetched);
    assert run.replies + [] == run.replies;
    r := replies[0];
  }

  /**
   A finished tuple of set, get and delete operations has had exactly one reply, to its client, and
   the reply lacks an error code exactly when the tuple's transaction was committed.
   */
  lemma TheReplyTellsTheOutcome(s: System, t: nat) returns (r: Result)
    requires Reachable(s) && t < |s.items| && s.items[t].place.IsFinished()
    requires s.items[t].tuple.messages != [] && forall m :: m in s.items[t].tuple.messages ==> !m.IsDefinition()
    ensures RepliesTo(s.log, t) == [ReplyEnvelope(s.items[t].tuple.identity, r)]
    ensures r.errorCode.None? <==> t in s.ended && s.items[t].place.Ended? && s.items[t].place.verdict.Committed?
  {
    hide LanesOk;
    hide ItemOk;
    hide DatabaseAfterEnded;
    ReachableIsInOrder(s);
    assert s.items[t] in s.items;
    r := OneReplyToItem(s.items[t]);
  }

  // ---------------------------------------------------------------- what the last commit left

  /** The last message of a tuple whose transaction was committed was accepted. */
  lemma EndedWasAccepted(item: Item)
    requires ItemOk(item) && item.place.Ended? && item.tuple.messages != []
    requires !item.tuple.messages[|item.tuple.messages| - 1].IsDefinition()
    ensures var (ms, answers) := (item.tuple.messages, item.place.answers);
            |answers| == |ms| && PlanFor(ms[|ms| - 1], answers[|ms| - 1]) == GetPlanning.Accepted
  {
    hide Run;
    hide PlanFor;
    hide ReplyEnvelopes;
    hide AllReplies;
    OpenMeansNoCrash(item.tuple.id, item.tuple.messages, item.place.answers);
    LastIsAccepted(item.tuple.id, item.tuple.messages, item.place.answers);
  }

  /** The database after the last ended transaction, when that was committed. */
  lemma LastCommit(s: System) returns (before: Database, earlier: seq<Message>)
    requires Reachable(s) && s.ended != []
    requires var t := s.ended[|s.ended| - 1];
             && t < |s.items| && s.items[t].place.Ended? && s.items[t].place.verdict.Committed?
             && s.items[t].tuple.messages != []
             && !s.items[t].tuple.messages[|s.items[t].tuple.messages| - 1].IsDefinition()
    ensures var item := s.items[s.ended[|s.ended| - 1]];
            var (ms, answers) := (item.tuple.messages, item.place.answers);
            && s.db == Effect(Effects(before, earlier), ms[|ms| - 1])
            && |answers| == |ms| && PlanFor(ms[|ms| - 1], answers[|ms| - 1]) == GetPlanning.Accepted
  {
    hide LanesOk;
    hide CrashOk;
    hide RequestsOk;
    hide ItemOk;
    hide Effects;
    hide Effect;
    hide PlanFor;
    hide DatabaseAfterEnded;
    ReachableIsInOrder(s);
    var item := s.items[s.ended[|s.ended| - 1]];
    var ms := item.tuple.messages;
    assert item in s.items;
    EndedWasAccepted(item);
    before := DatabaseAfterEnded(s.base, s.items, s.ended[..|s.ended| - 1]);
    earlier := Operations(ms[..|ms| - 1]);
    LastEnded(s.base, s.items, s.ended);
    LastEffect(before, earlier, ms[|ms| - 1]);
  }

  lemma LastEnded(base: Database, items: seq<Item>, ended: seq<nat>)
    requires ended != []
    requires var t := ended[|ended| - 1];
             t < |items| && items[t].place.Ended? && items[t].place.verdict.Committed?
    ensures DatabaseAfterEnded(base, items, ended)
            == Effects(DatabaseAfterEnded(base, items, ended[..|ended| - 1]),
                       Operations(items[ended[|ended| - 1]].tuple.messages))
  {
    hide Effects;
    hide Operations;
  }

  /** When the last commit ended with a delete, its store has no row with the key. */
  lemma TheLastDeleteIsSeen(s: System, o: Manipulation, store: Bytes)
    requires Reachable(s) && s.ended != []
    requires var t := s.ended[|s.ended| - 1];
             && t < |s.items| && s.items[t].place.Ended? && s.items[t].place.verdict.Committed?
             && s.items[t].tuple.messages != []
             && s.items[t].tuple.messages[|s.items[t].tuple.messages| - 1] == Delete(o)
    requires o.storeInfo != [] && o.storeInfo[0].storeName.GetOr([]) == store && store in s.db
    ensures forall r :: r in s.db[store].rows ==>
              exists c :: c in o.primaryKey
                          && !(c.name.GetOr([]) in r && r[c.name.GetOr([])] == c.value.GetOr([]))
  {
    hide Reachable;
    hide Effects;
    hide PlanFor;
    var before, earlier := LastCommit(s);
    OneEffect(Effects(before, earlier), Delete(o));
    var indexes := CommittedDelete(Effects(before, earlier), o, store);
  }

  /** When it ended with a set, the row it wrote is there, with the last of the values given for a column. */
  lemma TheLastSetIsSeen(s: System, o: Manipulation, store: Bytes) returns (written: TableRow)
    requires Reachable(s) && s.ended != []
    requires var t := s.ended[|s.ended| - 1];
             && t < |s.items| && s.items[t].place.Ended? && s.items[t].place.verdict.Committed?
             && s.items[t].tuple.messages != []
             && s.items[t].tuple.messages[|s.items[t].tuple.messages| - 1] == Set(o)
    requires o.storeInfo != [] && o.storeInfo[0].storeName.GetOr([]) == store && store in s.db
    ensures written in s.db[store].rows && IsWritten(written, o)
  {
    hide Reachable;
    hide Effects;
    hide PlanFor;
    hide IsWritable;
    hide IsWritten;
    var before, earlier := LastCommit(s);
    var answers := s.items[s.ended[|s.ended| - 1]].place.answers;
    AcceptedIsWritable(o, answers[|answers| - 1]);
    OneEffect(Effects(before, earlier), Set(o));
    written := CommittedSet(Effects(before, earlier), o, store);
  }

  // ---------------------------------------------------------------- tables

  /** Each of the transactions that were committed had operations that fit the tables it found. */
  ghost predicate EndedFit(base: Database, items: seq<Item>, ended: seq<nat>) {
    ended == [] ||
    (var last := |ended| - 1;
     var t := ended[last];
     && EndedFit(base, items, ended[..last])
     && (t < |items| && items[t].place.Ended? && items[t].place.verdict.Committed? ==>
           AllFit(DatabaseAfterEnded(base, items, ended[..last]), Operations(items[t].tuple.messages))))
  }

  lemma {:induction false} EndedKeepDatabase(base: Database, items: seq<Item>, ended: seq<nat>)
    requires IsSound(base) && EndedFit(base, items, ended)
    ensures IsSound(DatabaseAfterEnded(base, items, ended))
  {
    hide IsSound;
    hide AllFit;
    if ended != [] {
      var last := |ended| - 1;
      var t := ended[last];
      EndedKeepDatabase(base, items, ended[..last]);
      if t < |items| && items[t].place.Ended? && items[t].place.verdict.Committed? {
        EffectsKeepDatabase(DatabaseAfterEnded(base, items, ended[..last]), Operations(items[t].tuple.messages));
      }
    }
  }

  /**
   In every reachable state the tables are sound, so that a GET is a filter of them, if they were at
   the start and NDB commits only operations that fit.
   */
  lemma TablesStaySound(s: System)
    requires Reachable(s) && IsSound(s.base) && EndedFit(s.base, s.items, s.ended)
    ensures IsSound(s.db)
  {
    hide LanesOk;
    hide RepliesOk;
    hide IsSound;
    hide EndedFit;
    ReachableIsInOrder(s);
    EndedKeepDatabase(s.base, s.items, s.ended);
  }

  // ---------------------------------------------------------------- crashes

  /**
   The server has crashed exactly when it has executed a tuple whose run crashes, or a worker has
   misread its parts; and that happens only after a client message that is not one frame.
   */
  lemma OnlyCrashingRunsCrash(s: System)
    requires Reachable(s)
    ensures s.crashed <==> s.misread || exists t :: 0 <= t < |s.items| && s.items[t].place.Broken?
    ensures forall t :: 0 <= t < |s.items| && s.items[t].place.Broken? ==>
              && |s.items[t].place.answers| == |s.items[t].tuple.messages|
              && Run(s.items[t].tuple.id, s.items[t].tuple.messages, s.items[t].place.answers).crashed
    ensures s.misread ==> !AreOneFrame(s.requests)
  {
    hide LanesOk;
    hide DatabaseOk;
    hide AreOneFrame;
    hide Run;
    hide ReplyEnvelopes;
    ReachableIsInOrder(s);
    forall t | 0 <= t < |s.items| && s.items[t].place.Broken?
      ensures s.items[t] in s.items && ItemOk(s.items[t])
    {
    }
    if item :| item in s.items && item.place.Broken? {
      var t :| 0 <= t < |s.items| && s.items[t] == item;
    }
  }

  /**
   While all client messages are single frames with safe tuples, and the tables have the columns they
   scan, the server does not crash.
   */
  lemma SafeRequestsDoNotCrash(s: System)
    requires Reachable(s) && AreOneFrame(s.requests)
    requires forall t :: 0 <= t < |DecodeEnvelopes(s.decoder, s.received)| ==>
               IsSafe(DecodeEnvelopes(s.decoder, s.received)[t].messages)
    requires forall t :: 0 <= t < |s.items| && s.items[t].place.Broken? ==>
               && |s.items[t].place.answers| == |s.items[t].tuple.messages|
               && KnowsColumns(s.items[t].tuple.messages, s.items[t].place.answers)
    ensures !s.crashed
  {
    hide Reachable;
    hide Run;
    hide IsSafe;
    hide KnowsColumns;
    hide AreOneFrame;
    OnlyCrashingRunsCrash(s);
    TuplesAreDecoded(s);
    forall t | 0 <= t < |s.items| && s.items[t].place.IsOut()
               && |s.items[t].place.answers| == |s.items[t].tuple.messages|
               && KnowsColumns(s.items[t].tuple.messages, s.items[t].place.answers)
      ensures !Run(s.items[t].tuple.id, s.items[t].tuple.messages, s.items[t].place.answers).crashed
    {
      assert TuplesOf(s.items)[t] == s.items[t].tuple;
      SafeRunsDoNotCrash(s.items[t].tuple.id, s.items[t].tuple.messages, s.items[t].place.answers);
    }
  }

  lemma TuplesAreDecoded(s: System)
    requires Reachable(s)
    ensures TuplesOf(s.items) == DecodeEnvelopes(s.decoder, s.received)
  {
    hide LanesOk;
    hide RepliesOk;
    ReachableIsInOrder(s);
  }

  /** Even when all columns are known, an executor can crash on its next tuple exactly if that is unsafe. */
  lemma UnsafeTuplesCanCrash(s: System, e: nat)
    requires Inv(s) && !s.crashed && e < |s.lanes| && s.sinks != [] && !s.lanes[e].flushing && s.lanes[e].todo != []
    ensures s.lanes[e].todo[0] < |s.items|
    ensures var messages := s.items[s.lanes[e].todo[0]].tuple.messages;
            (exists answers :: |answers| == |messages| && KnowsColumns(messages, answers)
                               && Enabled(s, Execute(e, answers)) && Next(s, Execute(e, answers)).crashed)
            <==> !IsSafe(messages)
  {
    hide Inv;
    hide Run;
    hide IsSafe;
    hide KnowsColumns;
    hide ReplyEnvelopes;
    TodoCanExecute(s, e);
    var tuple := s.items[s.lanes[e].todo[0]].tuple;
    forall answers: seq<Answer> | |answers| == |tuple.messages|
      ensures Enabled(s, Execute(e, answers))
              && Next(s, Execute(e, answers)).crashed == Run(tuple.id, tuple.messages, answers).crashed
    {
    }
    CrashesExactlyWhenUnsafe(tuple.id, tuple.messages);
  }
}
