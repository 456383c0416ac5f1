/**
 The batch loop of the executor is a run of the state machine: whatever ExecuteBatch does, as its
 events say, one executor of the pipeline does in a run of its own steps, with the same replies in
 the same order and the same database.
 */
module BatchRefinements {
  import opened Wrappers
  import opened Wire
  import opened Messages
  import opened ResultCodec
  import opened FrameDecoding
  import opened Transport
  import opened NdbTables
  import opened TupleRuns
  import opened Execution
  import opened Pipeline
  import opened PipelinePlaces
  import opened PipelineReplies
  import opened PipelineSafety
  import opened PipelineProgress

  predicate IsStepOf(step: Step, e: nat) {
    match step
    case Take(lane, _) => lane == e
    case Execute(lane, _) => lane == e
    case Wait(lane) => lane == e
    case Complete(lane, _, _, _) => lane == e
    case FlushDone(lane) => lane == e
    case Finish(lane) => lane == e
    case _ => false
  }

  // ---------------------------------------------------------------- the two kinds of state

  /** Ticket t waits for the commit of the job. */
  ghost predicate IsJob(items: seq<Item>, t: nat, job: Job) {
    && t < |items| && items[t].place.Pending?
    && |items[t].place.answers| == |items[t].tuple.messages|
    && job == Job(items[t].tuple, Run(items[t].tuple.id, items[t].tuple.messages, items[t].place.answers).operations)
  }

  ghost predicate IsTuple(items: seq<Item>, t: nat, tuple: TupleValue) { t < |items| && items[t].tuple == tuple }

  /** An executor is where the batch loop is, with these tuples left to execute. */
  ghost predicate Matches(items: seq<Item>, l: Lane, loop: Loop, left: seq<TupleValue>) {
    && |l.todo| == |left| == loop.left && |l.pending| == |loop.jobs|
    && (forall i :: 0 <= i < |left| ==> IsTuple(items, l.todo[i], left[i]))
    && (forall k :: 0 <= k < |loop.jobs| ==> IsJob(items, l.pending[k], loop.jobs[k]))
    && l.total == loop.total && l.flushing == loop.waiting
  }

  /** From s to s' the executor has sent these replies and left this database, and it goes on. */
  ghost predicate Went(s: System, s': System, e: nat, replies: seq<Envelope>, db: Database)
    requires s.sinks != [] && e < |s.lanes|
  {
    && Inv(s') && !s'.crashed
    && |s'.lanes| == |s.lanes| && |s'.sinks| == |s.sinks|
    && s'.lanes[e].inbox == s.lanes[e].inbox && s'.lanes[e].batch == s.lanes[e].batch
    && s'.sinks[SinkOf(s, e)] == s.sinks[SinkOf(s, e)] + replies
    && s'.db == db
  }

  /** A step of executor e after which it is where the loop is, with the replies sent and the database left. */
  ghost predicate Follows(s: System, step: Step, e: nat, loop: Loop, left: seq<TupleValue>, replies: seq<Envelope>,
                          db: Database)
    requires s.sinks != [] && e < |s.lanes|
  {
    && Enabled(s, step)
    && var s' := Next(s, step);
    && e < |s'.lanes| && Matches(s'.items, s'.lanes[e], loop, left) && Went(s, s', e, replies, db)
  }

  ghost predicate IsReady(s: System, e: nat) { Inv(s) && !s.crashed && s.sinks != [] && e < |s.lanes| }

  /** What an Executed event says is what the tuple does, and it does not crash. */
  ghost predicate IsGenuine(ev: Event) {
    ev.Executed? ==>
      && |ev.answers| == |ev.tuple.messages|
      && ev.run == Run(ev.tuple.id, ev.tuple.messages, ev.answers) && !ev.run.crashed
  }

  function DatabaseAfterEvent(db: Database, ev: Event): Database {
    match ev
    case Executed(_, _, _) => db
    case Completed(_, c) => AfterCallback(db, c.operations, c.verdict)
  }

  // ---------------------------------------------------------------- one event

  lemma ExecuteMatches(s: System, e: nat, loop: Loop, left: seq<TupleValue>, ev: Event)
    requires IsReady(s, e) && Matches(s.items, s.lanes[e], loop, left)
    requires ev.Executed? && IsGenuine(ev) && left != [] && ev.tuple == left[0] && Follow(loop, ev).Some?
    requires Enabled(s, Execute(e, ev.answers))
    ensures var s' := AfterExecute(s, e, ev.answers);
            && Matches(s'.items, s'.lanes[e], Follow(loop, ev).value, left[1..])
            && !s'.crashed && s'.db == s.db && |s'.sinks| == |s.sinks|
            && s'.sinks[SinkOf(s, e)] == s.sinks[SinkOf(s, e)] + ev.Replies()
            && s'.lanes[e].inbox == s.lanes[e].inbox && s'.lanes[e].batch == s.lanes[e].batch
  {
    hide Run;
    hide ReplyEnvelopes;
    hide Inv;
    var s', l := AfterExecute(s, e, ev.answers), s.lanes[e];
    var t, loop', l' := l.todo[0], Follow(loop, ev).value, s'.lanes[e];
    assert IsTuple(s.items, l.todo[0], left[0]);
    forall i | 0 <= i < |left[1..]|
      ensures IsTuple(s'.items, l'.todo[i], left[1..][i])
    {
      assert IsTuple(s.items, l.todo[i + 1], left[i + 1]);
    }
    forall k | 0 <= k < |loop'.jobs|
      ensures IsJob(s'.items, l'.pending[k], loop'.jobs[k])
    {
      if k < |loop.jobs| {
        assert IsJob(s.items, l.pending[k], loop.jobs[k]);
      }
    }
  }

  lemma ExecuteFollows(s: System, e: nat, loop: Loop, left: seq<TupleValue>, ev: Event)
    requires IsReady(s, e) && Matches(s.items, s.lanes[e], loop, left)
    requires ev.Executed? && IsGenuine(ev) && left != [] && ev.tuple == left[0] && Follow(loop, ev).Some?
    ensures Follows(s, Execute(e, ev.answers), e, Follow(loop, ev).value, left[1..], ev.Replies(), s.db)
  {
    hide Run;
    hide ReplyEnvelopes;
    hide Inv;
    hide AfterExecute;
    assert IsTuple(s.items, s.lanes[e].todo[0], left[0]);
    TodoCanExecute(s, e);
    var step := Execute(e, ev.answers);
    assert Enabled(s, step);
    ExecuteMatches(s, e, loop, left, ev);
    StepKeepsOrder(s, step);
    SizesStay(s, step);
  }

  lemma CompleteMatches(s: System, e: nat, loop: Loop, left: seq<TupleValue>, k: nat, c: Completion)
    requires IsReady(s, e) && Matches(s.items, s.lanes[e], loop, left) && k < |loop.jobs|
    requires loop.jobs[k] == Job(c.tuple, c.operations)
    requires Enabled(s, Complete(e, k, c.verdict, c.fetched))
    ensures var s' := AfterComplete(s, e, k, c.verdict, c.fetched);
            && Matches(s'.items, s'.lanes[e], loop.(jobs := Without(loop.jobs, k)), left)
            && !s'.crashed && |s'.sinks| == |s.sinks| && s'.db == AfterCallback(s.db, c.operations, c.verdict)
            && s'.sinks[SinkOf(s, e)] == s.sinks[SinkOf(s, e)] + [c.Reply()]
            && s'.lanes[e].inbox == s.lanes[e].inbox && s'.lanes[e].batch == s.lanes[e].batch
  {
    hide Run;
    hide ReplyEnvelope;
    hide CallbackReply;
    hide AfterCallback;
    hide RepliesOk;
    hide DatabaseOk;
    hide CrashOk;
    hide OwnsItsLists;
    hide TuplesInLists;
    var s', l := AfterComplete(s, e, k, c.verdict, c.fetched), s.lanes[e];
    assert IsJob(s.items, l.pending[k], loop.jobs[k]);
    assert LaneOk(s.items, s.owners, l, e);
    forall i | 0 <= i < |left|
      ensures IsTuple(s'.items, s'.lanes[e].todo[i], left[i])
    {
      assert IsTuple(s.items, l.todo[i], left[i]);
    }
    var jobs' := Without(loop.jobs, k);
    forall j | 0 <= j < |jobs'|
      ensures IsJob(s'.items, s'.lanes[e].pending[j], jobs'[j])
    {
      var was := if j < k then j else j + 1;
      assert IsJob(s.items, l.pending[was], loop.jobs[was]);
      assert l.pending[was] != l.pending[k];
    }
  }

  lemma CompleteFollows(s: System, e: nat, loop: Loop, left: seq<TupleValue>, k: nat, c: Completion)
    requires IsReady(s, e) && Matches(s.items, s.lanes[e], loop, left) && k < |loop.jobs| && loop.waiting
    requires loop.jobs[k] == Job(c.tuple, c.operations)
    ensures Follows(s, Complete(e, k, c.verdict, c.fetched), e, loop.(jobs := Without(loop.jobs, k)), left,
                    [c.Reply()], AfterCallback(s.db, c.operations, c.verdict))
  {
    hide Run;
    hide Inv;
    hide AfterComplete;
    hide AfterCallback;
    hide ReplyEnvelope;
    hide CallbackReply;
    assert IsJob(s.items, s.lanes[e].pending[k], loop.jobs[k]);
    var step := Complete(e, k, c.verdict, c.fetched);
    assert Enabled(s, step);
    CompleteMatches(s, e, loop, left, k, c);
    StepKeepsOrder(s, step);
    SizesStay(s, step);
  }

  /** The executor starts to wait, at the end of the tuples. */
  lemma WaitFollows(s: System, e: nat, loop: Loop, left: seq<TupleValue>)
    requires IsReady(s, e) && Matches(s.items, s.lanes[e], loop, left)
    requires !loop.waiting && loop.left == 0 && loop.jobs != []
    ensures Follows(s, Wait(e), e, loop.(waiting := true), left, [], s.db)
  {
    hide Run;
    hide Inv;
    hide IsJob;
    CountersAreRight(s, e);
    StepKeepsOrder(s, Wait(e));
    assert s.sinks[SinkOf(s, e)] + [] == s.sinks[SinkOf(s, e)];
  }

  lemma CountersAreRight(s: System, e: nat)
    requires Inv(s) && e < |s.lanes|
    ensures CountsRight(s.lanes[e])
  {
    hide RepliesOk;
    hide DatabaseOk;
    assert LaneOk(s.items, s.owners, s.lanes[e], e);
  }

  /** The executor stops to wait, when no transaction is left. */
  lemma FlushFollows(s: System, e: nat, loop: Loop, left: seq<TupleValue>)
    requires IsReady(s, e) && Matches(s.items, s.lanes[e], loop, left) && loop.waiting && loop.jobs == []
    ensures Follows(s, FlushDone(e), e, Loop([], 0, false, loop.left), left, [], s.db)
  {
    hide Run;
    hide Inv;
    hide IsJob;
    CountersAreRight(s, e);
    StepKeepsOrder(s, FlushDone(e));
    assert s.sinks[SinkOf(s, e)] + [] == s.sinks[SinkOf(s, e)];
  }

  lemma WentOn(s: System, s': System, s'': System, e: nat, a: seq<Envelope>, b: seq<Envelope>, db': Database,
               db'': Database)
    requires s.sinks != [] && e < |s.lanes| && Went(s, s', e, a, db') && Went(s', s'', e, b, db'')
    ensures Went(s, s'', e, a + b, db'')
  {
    hide Inv;
    assert s.sinks[SinkOf(s, e)] + a + b == s.sinks[SinkOf(s, e)] + (a + b);
  }

  lemma OneStep(s: System, step: Step)
    requires Enabled(s, step)
    ensures Reaches(s, [step], Next(s, step))
  {
    hide Enabled;
    hide Next;
    assert [step][1..] == [];
    assert Reaches(Next(s, step), [], Next(s, step));
  }

  lemma {:induction false} ReachesOn(s: System, a: seq<Step>, s': System, b: seq<Step>, s'': System)
    requires Reaches(s, a, s') && Reaches(s', b, s'')
    ensures Reaches(s, a + b, s'')
    decreases |a|
  {
    hide Enabled;
    hide Next;
    if a == [] {
      assert a + b == b;
    } else {
      ReachesOn(Next(s, a[0]), a[1..], s', b, s'');
      assert (a + b)[1..] == a[1..] + b;
    }
  }

  lemma StillReady(s: System, s': System, e: nat, replies: seq<Envelope>, db: Database)
    requires IsReady(s, e) && Went(s, s', e, replies, db)
    ensures IsReady(s', e) && s'.db == db
  {
    hide Inv;
  }

  lemma NothingHappens(s: System, e: nat)
    requires IsReady(s, e)
    ensures Reaches(s, [], s) && Went(s, s, e, [], s.db)
  {
    hide Inv;
    assert s.sinks[SinkOf(s, e)] + [] == s.sinks[SinkOf(s, e)];
  }

  /** Before a completion the executor waits: it does already, or starts to at the end of the tuples. */
  lemma GetsToWait(s: System, e: nat, loop: Loop, left: seq<TupleValue>) returns (steps: seq<Step>, s': System)
    requires IsReady(s, e) && Matches(s.items, s.lanes[e], loop, left)
    requires loop.jobs != [] && (loop.waiting || loop.left == 0)
    ensures Reaches(s, steps, s') && forall step :: step in steps ==> IsStepOf(step, e)
    ensures Went(s, s', e, [], s.db) && IsReady(s', e)
    ensures Matches(s'.items, s'.lanes[e], loop.(waiting := true), left)
  {
    hide Inv;
    hide Matches;
    hide Enabled;
    hide Next;
    hide Reaches;
    hide Went;
    if loop.waiting {
      NothingHappens(s, e);
      steps, s' := [], s;
      assert loop == loop.(waiting := true);
    } else {
      WaitFollows(s, e, loop, left);
      OneStep(s, Wait(e));
      steps, s' := [Wait(e)], Next(s, Wait(e));
      StillReady(s, s', e, [], s.db);
    }
  }

  /** After the last completion it stops to wait. */
  lemma StopsToWait(s: System, e: nat, loop: Loop, left: seq<TupleValue>) returns (steps: seq<Step>, s': System)
    requires IsReady(s, e) && Matches(s.items, s.lanes[e], loop, left) && loop.waiting
    ensures Reaches(s, steps, s') && forall step :: step in steps ==> IsStepOf(step, e)
    ensures Went(s, s', e, [], s.db) && e < |s'.lanes|
    ensures Matches(s'.items, s'.lanes[e], if loop.jobs == [] then Loop([], 0, false, loop.left) else loop, left)
  {
    hide Inv;
    hide Matches;
    hide Enabled;
    hide Next;
    hide Reaches;
    hide Went;
    if loop.jobs != [] {
      NothingHappens(s, e);
      steps, s' := [], s;
    } else {
      FlushFollows(s, e, loop, left);
      OneStep(s, FlushDone(e));
      steps, s' := [FlushDone(e)], Next(s, FlushDone(e));
      StillReady(s, s', e, [], s.db);
    }
  }

  lemma NothingAdded(replies: seq<Envelope>)
    ensures [] + replies == replies == replies + []
  {
  }

  /** A completion: the executor waits if it does not yet, the transaction ends, and it may be the last. */
  lemma CompletedIsSteps(s: System, e: nat, loop: Loop, left: seq<TupleValue>, k: nat, c: Completion)
    returns (steps: seq<Step>, s': System)
    requires IsReady(s, e) && Matches(s.items, s.lanes[e], loop, left) && Follow(loop, Completed(k, c)).Some?
    ensures Reaches(s, steps, s') && forall step :: step in steps ==> IsStepOf(step, e)
    ensures Went(s, s', e, [c.Reply()], AfterCallback(s.db, c.operations, c.verdict)) && e < |s'.lanes|
    ensures Matches(s'.items, s'.lanes[e], Follow(loop, Completed(k, c)).value, left)
  {
    hide Inv;
    hide IsReady;
    hide Matches;
    hide Enabled;
    hide Next;
    hide AfterCallback;
    hide Reaches;
    hide Went;
    hide Completion.Reply;
    ReadyHasLane(s, e);
    var waits, s1 := GetsToWait(s, e, loop, left);
    var ends := Complete(e, k, c.verdict, c.fetched);
    ReadyHasLane(s1, e);
    WentDatabase(s, s1, e, [], s.db);
    CompleteFollows(s1, e, loop.(waiting := true), left, k, c);
    OneStep(s1, ends);
    var s2, db' := Next(s1, ends), AfterCallback(s.db, c.operations, c.verdict);
    StillReady(s1, s2, e, [c.Reply()], db');
    ReadyHasLane(s2, e);
    var stops;
    stops, s' := StopsToWait(s2, e, Loop(Without(loop.jobs, k), loop.total, true, loop.left), left);
    steps := waits + [ends] + stops;
    ReachesOn(s, waits, s1, [ends], s2);
    ReachesOn(s, waits + [ends], s2, stops, s');
    NothingAdded([c.Reply()]);
    WentOn(s, s1, s2, e, [], [c.Reply()], s.db, db');
    WentOn(s, s2, s', e, [c.Reply()], [], db', db');
    LastOneOut(loop.jobs, k);
  }

  lemma ReadyHasLane(s: System, e: nat)
    requires IsReady(s, e)
    ensures e < |s.lanes| && s.sinks != []
  {
  }

  lemma WentDatabase(s: System, s': System, e: nat, replies: seq<Envelope>, db: Database)
    requires s.sinks != [] && e < |s.lanes| && Went(s, s', e, replies, db)
    ensures s'.db == db && |s'.lanes| == |s.lanes|
  {
    hide Inv;
  }

  // ---------------------------------------------------------------- all events of a batch

  /** The tuples that were executed, in order. */
  function RunTuples(events: seq<Event>): seq<TupleValue> {
    if events == [] then []
    else
      var last := |events| - 1;
      RunTuples(events[..last]) + if events[last].Executed? then [events[last].tuple] else []
  }

  /** One event more, after the tuples that were executed before. */
  lemma EventIsSteps(s: System, e: nat, loop: Loop, left: seq<TupleValue>, ev: Event)
    returns (steps: seq<Step>, s': System)
    requires IsReady(s, e) && Matches(s.items, s.lanes[e], loop, left) && Follow(loop, ev).Some?
    requires IsGenuine(ev) && (ev.Executed? ==> left != [] && ev.tuple == left[0])
    ensures Reaches(s, steps, s') && forall step :: step in steps ==> IsStepOf(step, e)
    ensures Went(s, s', e, ev.Replies(), DatabaseAfterEvent(s.db, ev)) && e < |s'.lanes|
    ensures Matches(s'.items, s'.lanes[e], Follow(loop, ev).value, if ev.Executed? then left[1..] else left)
  {
    hide Inv;
    hide Matches;
    hide Enabled;
    hide Next;
    hide AfterCallback;
    hide Reaches;
    hide ReplyEnvelopes;
    hide Completion.Reply;
    hide Follow;
    hide IsGenuine;
    hide Went;
    match ev
    case Executed(_, answers, _) =>
      ExecuteFollows(s, e, loop, left, ev);
      steps, s' := [Execute(e, answers)], Next(s, Execute(e, answers));
      OneStep(s, Execute(e, answers));
      WentDatabase(s, s', e, ev.Replies(), s.db);
    case Completed(k, c) =>
      steps, s' := CompletedIsSteps(s, e, loop, left, k, c);
  }

  lemma {:induction false} EventsAreSteps(s: System, e: nat, tuples: seq<TupleValue>, events: seq<Event>)
    returns (steps: seq<Step>, s': System)
    requires IsReady(s, e) && Matches(s.items, s.lanes[e], Loop([], 0, false, |tuples|), tuples)
    requires Replay(|tuples|, events).Some? && RunTuples(events) <= tuples
    requires forall ev :: ev in events ==> IsGenuine(ev)
    ensures Reaches(s, steps, s') && forall step :: step in steps ==> IsStepOf(step, e)
    ensures Went(s, s', e, RepliesOf(events), DatabaseAfterAll(s.db, events))
    ensures Matches(s'.items, s'.lanes[e], Replay(|tuples|, events).value, tuples[|RunTuples(events)|..])
  {
    hide Inv;
    hide Matches;
    hide Follow;
    hide AfterCallback;
    hide IsGenuine;
    hide Event.Replies;
    if events == [] {
      steps, s' := [], s;
      assert tuples[0..] == tuples && s.sinks[SinkOf(s, e)] + [] == s.sinks[SinkOf(s, e)];
    } else {
      hide Reaches;
      hide Went;
      hide IsReady;
      var last := |events| - 1;
      var before, ev := events[..last], events[last];
      ReadyHasLane(s, e);
      assert ev in events && forall earlier :: earlier in before ==> earlier in events;
      var first, s1 := EventsAreSteps(s, e, tuples, before);
      StillReady(s, s1, e, RepliesOf(before), DatabaseAfterAll(s.db, before));
      ReadyHasLane(s1, e);
      var left := tuples[|RunTuples(before)|..];
      if ev.Executed? {
        NextTuple(tuples, RunTuples(before), ev.tuple);
      }
      var more, s2 := EventIsSteps(s1, e, Replay(|tuples|, before).value, left, ev);
      ReachesOn(s, first, s1, more, s2);
      WentOn(s, s1, s2, e, RepliesOf(before), ev.Replies(), s1.db, DatabaseAfterEvent(s1.db, ev));
      steps, s' := first + more, s2;
      WentDatabase(s, s2, e, RepliesOf(events), DatabaseAfterAll(s.db, events));
    }
  }

  lemma NextTuple(tuples: seq<TupleValue>, before: seq<TupleValue>, t: TupleValue)
    requires before + [t] <= tuples
    ensures var left := tuples[|before|..]; left != [] && left[0] == t && left[1..] == tuples[|before + [t]|..]
  {
    assert tuples[|before|] == (before + [t])[|before|];
  }

  // ---------------------------------------------------------------- the tuples of a batch

  lemma {:induction false} RunTuplesConcat(a: seq<Event>, b: seq<Event>)
    ensures RunTuples(a + b) == RunTuples(a) + RunTuples(b)
  {
    if b == [] {
      assert a + b == a;
    } else {
      var last := |b| - 1;
      RunTuplesConcat(a, b[..last]);
      assert (a + b)[..|a + b| - 1] == a + b[..last];
      TuplesAssociate(RunTuples(a), RunTuples(b[..last]), if b[last].Executed? then [b[last].tuple] else []);
    }
  }

  lemma {:induction false} RunTuplesAreExecuted(events: seq<Event>)
    ensures RunTuples(events) == RunTuples(ExecutedIn(events))
    ensures forall ev :: ev in events && ev.Executed? ==> ev in ExecutedIn(events)
  {
    if events != [] {
      var last := |events| - 1;
      RunTuplesAreExecuted(events[..last]);
      assert events == events[..last] + [events[last]];
      var before := ExecutedIn(events[..last]);
      assert before + [] == before && (before + [events[last]])[..|before|] == before;
    }
  }

  lemma {:induction false} RunTuplesOfList(values: seq<TupleValue>, answers: seq<seq<Answer>>)
    requires HaveAnswers(values, answers) && Survives(values, answers)
    ensures RunTuples(RunsOf(values, answers)) == values
    ensures forall ev :: ev in RunsOf(values, answers) ==> IsGenuine(ev)
  {
    hide Run;
    if values != [] {
      var last := |values| - 1;
      RunTuplesOfList(values[..last], answers[..last]);
      assert RunsOf(values, answers)[..last] == RunsOf(values[..last], answers[..last]);
      assert values == values[..last] + [values[last]];
    }
  }

  /** All tuples of the lists, in order. */
  function Together(values: seq<seq<TupleValue>>): (tuples: seq<TupleValue>)
    ensures |tuples| == TuplesIn(values)
  {
    if values == [] then [] else Together(values[..|values| - 1]) + values[|values| - 1]
  }

  lemma {:induction false} RunTuplesOfBatch(values: seq<seq<TupleValue>>, answers: seq<seq<seq<Answer>>>)
    requires |answers| == |values|
    requires forall i :: 0 <= i < |values| ==> HaveAnswers(values[i], answers[i]) && Survives(values[i], answers[i])
    ensures RunTuples(AllRuns(values, answers)) == Together(values)
    ensures forall ev :: ev in AllRuns(values, answers) ==> IsGenuine(ev)
  {
    hide RunsOf;
    hide Survives;
    hide HaveAnswers;
    hide IsGenuine;
    if values != [] {
      var last := |values| - 1;
      RunTuplesOfBatch(values[..last], answers[..last]);
      RunTuplesOfList(values[last], answers[last]);
      RunTuplesConcat(AllRuns(values[..last], answers[..last]), RunsOf(values[last], answers[last]));
    }
  }

  lemma BatchIsGenuine(values: seq<seq<TupleValue>>, answers: seq<seq<seq<Answer>>>, events: seq<Event>)
    requires |answers| == |values|
    requires forall i :: 0 <= i < |values| ==> HaveAnswers(values[i], answers[i]) && Survives(values[i], answers[i])
    requires ExecutedIn(events) == AllRuns(values, answers)
    ensures RunTuples(events) == Together(values)
    ensures forall ev :: ev in events ==> IsGenuine(ev)
  {
    hide AllRuns;
    hide Survives;
    hide HaveAnswers;
    hide Run;
    RunTuplesAreExecuted(events);
    RunTuplesOfBatch(values, answers);
  }

  /** The lists of tuples behind the first pointers of a queue. */
  ghost predicate AreLists(items: seq<Item>, hs: seq<Handle>, values: seq<seq<TupleValue>>) {
    |hs| == |values| && forall i :: 0 <= i < |hs| ==> AreTuples(items, hs[i].tickets, values[i])
  }

  ghost predicate AreTuples(items: seq<Item>, tickets: seq<nat>, tuples: seq<TupleValue>) {
    |tickets| == |tuples| && forall i :: 0 <= i < |tickets| ==> IsTuple(items, tickets[i], tuples[i])
  }

  lemma {:induction false} TicketsAreTuples(items: seq<Item>, hs: seq<Handle>, values: seq<seq<TupleValue>>)
    requires AreLists(items, hs, values)
    ensures AreTuples(items, TicketsOf(hs), Together(values))
  {
    hide IsTuple;
    if hs != [] {
      var last := |hs| - 1;
      TicketsAreTuples(items, hs[..last], values[..last]);
      TicketsConcat(hs[..last], [hs[last]]);
      assert hs == hs[..last] + [hs[last]];
      OneList(hs[last].address, hs[last].tickets);
      assert AreTuples(items, hs[last].tickets, values[last]);
    } else {
      assert values == [];
    }
  }

  lemma TakeMatches(s: System, e: nat, count: nat, values: seq<seq<TupleValue>>)
    requires IsReady(s, e) && Enabled(s, Take(e, count)) && AreLists(s.items, s.lanes[e].inbox[..count], values)
    ensures var (s', tuples) := (Next(s, Take(e, count)), Together(values));
            e < |s'.lanes| && Matches(s'.items, s'.lanes[e], Loop([], 0, false, |tuples|), tuples)
  {
    hide Inv;
    hide TicketsOf;
    TicketsAreTuples(s.items, s.lanes[e].inbox[..count], values);
  }

  // ---------------------------------------------------------------- the main result

  /** What a batch leaves behind: the replies in the executor's sink, the database, and an idle executor. */
  ghost predicate Served(s: System, s': System, e: nat, count: nat, events: seq<Event>)
    requires IsReady(s, e) && count <= |s.lanes[e].inbox|
  {
    && |s'.sinks| == |s.sinks| && |s'.lanes| == |s.lanes|
    && s'.sinks[SinkOf(s, e)] == s.sinks[SinkOf(s, e)] + RepliesOf(events)
    && s'.db == DatabaseAfterAll(s.db, events)
    && s'.lanes[e] == IDLE.(inbox := s.lanes[e].inbox[count..])
  }

  lemma TakenBatch(s: System, e: nat, count: nat)
    requires IsReady(s, e) && Enabled(s, Take(e, count))
    ensures var s' := Next(s, Take(e, count));
            && IsReady(s', e) && s'.sinks == s.sinks && s'.db == s.db && |s'.lanes| == |s.lanes|
            && s'.lanes[e].inbox == s.lanes[e].inbox[count..] && s'.lanes[e].batch != []
  {
    hide Inv;
    hide TicketsOf;
    StepKeepsOrder(s, Take(e, count));
  }

  lemma FinishedBatch(s: System, e: nat)
    requires IsReady(s, e) && s.lanes[e].batch != []
    requires Matches(s.items, s.lanes[e], Loop([], 0, false, 0), [])
    ensures Enabled(s, Finish(e))
    ensures var s' := Next(s, Finish(e));
            s'.sinks == s.sinks && s'.db == s.db && |s'.lanes| == |s.lanes|
            && s'.lanes[e] == IDLE.(inbox := s.lanes[e].inbox)
  {
    hide RepliesOk;
    hide DatabaseOk;
    CountersAreRight(s, e);
  }

  /**
   The events ExecuteBatch is proved to leave are those of a run of one executor's own steps: it
   takes the lists, executes their tuples, waits, completes the transactions and frees the lists.
   */
  lemma BatchIsARun(s: System, e: nat, count: nat, values: seq<seq<TupleValue>>, answers: seq<seq<seq<Answer>>>,
                    events: seq<Event>)
    returns (steps: seq<Step>, s': System)
    requires IsReady(s, e) && Enabled(s, Take(e, count)) && AreLists(s.items, s.lanes[e].inbox[..count], values)
    requires |answers| == |values|
    requires forall i :: 0 <= i < |values| ==> HaveAnswers(values[i], answers[i]) && Survives(values[i], answers[i])
    requires ExecutedIn(events) == AllRuns(values, answers)
    requires Replay(TuplesIn(values), events) == Some(Loop([], 0, false, 0))
    ensures Reaches(s, steps, s') && forall step :: step in steps ==> IsStepOf(step, e)
    ensures Served(s, s', e, count, events)
  {
    hide Inv;
    hide Matches;
    hide Next;
    hide Reaches;
    hide Run;
    hide IsGenuine;
    hide Follow;
    hide AllRuns;
    hide HaveAnswers;
    hide Survives;
    hide Together;
    hide AreLists;
    hide Replay;
    hide RunTuples;
    var tuples := Together(values);
    TakeMatches(s, e, count, values);
    TakenBatch(s, e, count);
    OneStep(s, Take(e, count));
    var s1 := Next(s, Take(e, count));
    BatchIsGenuine(values, answers, events);
    var middle, s2 := EventsAreSteps(s1, e, tuples, events);
    assert tuples[|tuples|..] == [];
    FinishedBatch(s2, e);
    OneStep(s2, Finish(e));
    s' := Next(s2, Finish(e));
    steps := [Take(e, count)] + middle + [Finish(e)];
    ReachesOn(s, [Take(e, count)], s1, middle, s2);
    ReachesOn(s, [Take(e, count)] + middle, s2, [Finish(e)], s');
  }
}
