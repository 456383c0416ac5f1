/** What holds in every reachable state of the pipeline, and that it always comes to rest. */
module PipelineSafety {
  import opened Wrappers
  import opened Wire
  import opened Messages
  import opened ResultCodec
  import opened FrameDecoding
  import opened Transport
  import opened Requests
  import opened MessageProcessing
  import opened NdbTables
  import opened TupleRuns
  import opened Execution
  import opened Pipeline
  import opened PipelinePlaces
  import opened PipelineReplies
  import GetPlanning

  // ---------------------------------------------------------------- the invariant, over all runs

  lemma IdleIsOk(e: nat)
    ensures LaneOk([], map[], IDLE, e)
  {
  }

  lemma StartIsInOrder(decoder: Parsers, workers: nat, executors: nat, base: Database)
    ensures Inv(Start(decoder, workers, executors, base))
  {
    hide LaneOk;
    hide ItemOk;
    var s := Start(decoder, workers, executors, base);
    forall e | 0 <= e < |s.lanes|
      ensures LaneOk(s.items, s.owners, s.lanes[e], e)
    {
      IdleIsOk(e);
    }
  }

  lemma ExecuteKeepsCrash(s: System, e: nat, answers: seq<Answer>)
    requires CrashOk(s) && Enabled(s, Execute(e, answers))
    ensures CrashOk(AfterExecute(s, e, answers))
  {
    hide Run;
    hide ReplyEnvelopes;
    var s', t := AfterExecute(s, e, answers), s.lanes[e].todo[0];
    assert s'.items[t] in s'.items;
    assert forall item :: item in s'.items ==> item == s'.items[t] || item in s.items;
  }

  lemma SameBrokenItems(s: System, s': System)
    requires CrashOk(s) && !s.crashed && !s'.crashed && s'.misread == s.misread
    requires |s'.items| >= |s.items|
    requires forall t :: 0 <= t < |s'.items| ==>
               !s'.items[t].place.Broken? || (t < |s.items| && s'.items[t].place == s.items[t].place)
    ensures CrashOk(s')
  {
    forall item | item in s'.items
      ensures !item.place.Broken?
    {
      var t :| 0 <= t < |s'.items| && s'.items[t] == item;
      assert t < |s.items| ==> s.items[t] in s.items;
    }
  }

  lemma ReceiveKeepsCrash(s: System, w: nat, randoms: seq<nat>)
    requires CrashOk(s) && Enabled(s, Receive(w, randoms))
    ensures CrashOk(AfterReceive(s, w, randoms))
  {
    if !IsMisread(s.inboxes[w]) {
      SameBrokenItems(s, AfterScatter(s, w, randoms));
    }
  }

  /** Only misreading the parts, or executing a tuple that crashes the server, crashes it. */
  lemma StepKeepsCrash(s: System, step: Step)
    requires CrashOk(s) && Enabled(s, step)
    ensures CrashOk(Next(s, step))
  {
    hide CrashOk;
    hide Run;
    hide ReplyEnvelopes;
    hide ReplyEnvelope;
    hide CallbackReply;
    match step
    case Receive(w, randoms) => ReceiveKeepsCrash(s, w, randoms);
    case Execute(e, answers) => ExecuteKeepsCrash(s, e, answers);
    case _ => SameBrokenItems(s, Next(s, step));
  }

  lemma MeantConcat(a: seq<Request>, b: seq<Request>)
    ensures MeantEnvelopes(a + b) == MeantEnvelopes(a) + MeantEnvelopes(b)
    ensures AreOneFrame(a + b) <==> AreOneFrame(a) && AreOneFrame(b)
  {
    assert forall r :: r in a + b <==> r in a || r in b;
  }

  lemma ReceiveKeepsRequests(s: System, w: nat, randoms: seq<nat>)
    requires RequestsOk(s) && Enabled(s, Receive(w, randoms))
    ensures RequestsOk(AfterReceive(s, w, randoms))
  {
    hide RawParts;
    hide EnvelopesOf;
    MeantConcat(s.requests, s.inboxes[w]);
    if AreOneFrame(s.inboxes[w]) {
      OneFrameRequestsArePairs(s.inboxes[w]);
    }
  }

  lemma StepKeepsRequests(s: System, step: Step)
    requires RequestsOk(s) && Enabled(s, step)
    ensures RequestsOk(Next(s, step))
  {
    hide AreOneFrame;
    hide MeantEnvelopes;
    hide Run;
    hide ReplyEnvelopes;
    if step.Receive? {
      ReceiveKeepsRequests(s, step.worker, step.randoms);
    } else {
      var s' := Next(s, step);
      assert s'.requests == s.requests && s'.received == s.received && s'.misread == s.misread;
    }
  }

  lemma StepKeepsOrder(s: System, step: Step)
    requires Inv(s) && Enabled(s, step)
    ensures Inv(Next(s, step))
  {
    hide LanesOk;
    hide RepliesOk;
    hide DatabaseOk;
    hide CrashOk;
    hide RequestsOk;
    hide Next;
    StepKeepsCrash(s, step);
    StepKeepsRequests(s, step);
    StepKeepsLanes(s, step);
    StepKeepsReplies(s, step);
    StepKeepsDatabase(s, step);
  }

  lemma {:induction false} AlwaysInOrder(s: System, steps: seq<Step>, end: System)
    requires Inv(s) && Reaches(s, steps, end)
    ensures Inv(end)
    decreases |steps|
  {
    hide Inv;
    hide Next;
    hide Enabled;
    if steps != [] {
      StepKeepsOrder(s, steps[0]);
      AlwaysInOrder(Next(s, steps[0]), steps[1..], end);
    }
  }

  ghost predicate Reachable(s: System) {
    exists decoder, workers, executors, base, steps :: Reaches(Start(decoder, workers, executors, base), steps, s)
  }

  /** For any numbers of workers and executors, any run, and any answers. */
  lemma ReachableIsInOrder(s: System)
    requires Reachable(s)
    ensures Inv(s)
  {
    hide Inv;
    var decoder, workers, executors, base, steps :| Reaches(Start(decoder, workers, executors, base), steps, s);
    StartIsInOrder(decoder, workers, executors, base);
    AlwaysInOrder(Start(decoder, workers, executors, base), steps, s);
  }

  // ---------------------------------------------------------------- conservation

  function CopiesIn(l: Lane, t: nat): nat {
    multiset(TicketsOf(l.inbox))[t] + multiset(l.todo)[t] + multiset(l.pending)[t]
  }

  /** How often a tuple occurs in the lists of executors 0..n-1. */
  function Copies(lanes: seq<Lane>, t: nat): nat {
    if lanes == [] then 0
    else
      var last := |lanes| - 1;
      Copies(lanes[..last], t) + CopiesIn(lanes[last], t)
  }

  lemma {:induction false} DistinctOccursOnce(s: seq<nat>, t: nat)
    requires Distinct(s)
    ensures multiset(s)[t] == if t in s then 1 else 0
  {
    if s != [] {
      var last := |s| - 1;
      DistinctOccursOnce(s[..last], t);
      assert s == s[..last] + [s[last]];
      assert s[last] !in s[..last];
    }
  }

  lemma CopiesInLane(items: seq<Item>, l: Lane, e: nat, t: nat)
    requires HoldsItsTuples(items, l, e)
    ensures CopiesIn(l, t) == if t < |items| && items[t].place.IsHeldBy(e) then 1 else 0
  {
    DistinctOccursOnce(TicketsOf(l.inbox), t);
    DistinctOccursOnce(l.todo, t);
    DistinctOccursOnce(l.pending, t);
  }

  lemma {:induction false} CopiesUpTo(items: seq<Item>, lanes: seq<Lane>, t: nat)
    requires t < |items| && forall e :: 0 <= e < |lanes| ==> HoldsItsTuples(items, lanes[e], e)
    ensures Copies(lanes, t) == if !items[t].place.IsOut() && items[t].place.lane < |lanes| then 1 else 0
  {
    if lanes != [] {
      var last := |lanes| - 1;
      CopiesUpTo(items, lanes[..last], t);
      CopiesInLane(items, lanes[last], last, t);
    }
  }

  /**
   Every tuple that was ever decoded is in exactly one place: once in the queue, the batch or the
   pending commits of one executor, or finished. The tuples are exactly those of the requests.
   */
  lemma EveryTupleIsInOnePlace(s: System, t: nat)
    requires Reachable(s) && t < |s.items|
    ensures Copies(s.lanes, t) + (if s.items[t].place.IsOut() then 1 else 0) == 1
    ensures TuplesOf(s.items) == DecodeEnvelopes(s.decoder, s.received)
  {
    ReachableIsInOrder(s);
    CopiesUpTo(s.items, s.lanes, t);
  }

  // ---------------------------------------------------------------- replies

  lemma {:induction false} LoggedIsAReply(log: seq<Reply>, k: nat)
    requires k < |log|
    ensures log[k].envelope in RepliesTo(log, log[k].ticket)
  {
    var last := |log| - 1;
    if k < last {
      LoggedIsAReply(log[..last], k);
      assert log[..last][k] == log[k];
    }
  }

  lemma RepliesHaveTheIdentity(item: Item, e: Envelope)
    requires ItemOk(item) && e in item.replies
    ensures e.identity == item.tuple.identity
  {
    hide Run;
    hide AllReplies;
  }

  lemma {:induction false} DecodedFromARequest(p: Parsers, es: seq<Envelope>, t: nat)
    requires t < |DecodeEnvelopes(p, es)|
    ensures var tuple := DecodeEnvelopes(p, es)[t];
            exists r :: 0 <= r < |es| && tuple in DecodeFrame(p, es[r].frame, es[r].identity)
                        && tuple.identity == es[r].identity
  {
    hide DecodeFrame;
    var last := |es| - 1;
    var before := DecodeEnvelopes(p, es[..last]);
    if t < |before| {
      DecodedFromARequest(p, es[..last], t);
      var r :| 0 <= r < last && before[t] in DecodeFrame(p, es[..last][r].frame, es[..last][r].identity)
               && before[t].identity == es[..last][r].identity;
      assert es[..last][r] == es[r];
    } else {
      assert DecodeEnvelopes(p, es)[t] in DecodeFrame(p, es[last].frame, es[last].identity);
      DecodedCarryTheIdentity(p, es[last].frame, es[last].identity);
    }
  }

  lemma DecodedCarryTheIdentity(p: Parsers, frame: Bytes, identity: Bytes)
    ensures forall tuple :: tuple in DecodeFrame(p, frame, identity) ==> tuple.identity == identity
  {
  }

  /** Every reply that was ever sent carries the identity of the pair that holds the tuple it answers. */
  lemma RepliesGoToTheirPair(s: System, k: nat) returns (r: nat)
    requires Reachable(s) && k < |s.log|
    ensures s.log[k].ticket < |s.items| && r < |s.received|
    ensures var tuple := s.items[s.log[k].ticket].tuple;
            && tuple in DecodeFrame(s.decoder, s.received[r].frame, s.received[r].identity)
            && s.log[k].envelope.identity == s.received[r].identity
  {
    hide ItemOk;
    hide LanesOk;
    hide DecodeFrame;
    hide DecodeEnvelopes;
    hide DatabaseAfterEnded;
    hide CrashOk;
    hide RequestsOk;
    ReachableIsInOrder(s);
    assert s.log[k] in s.log;
    LoggedIsAReply(s.log, k);
    var t := s.log[k].ticket;
    assert s.items[t] in s.items && TuplesOf(s.items)[t] == s.items[t].tuple;
    RepliesHaveTheIdentity(s.items[t], s.log[k].envelope);
    DecodedFromARequest(s.decoder, s.received, t);
    r :| 0 <= r < |s.received|
         && s.items[t].tuple in DecodeFrame(s.decoder, s.received[r].frame, s.received[r].identity)
         && s.items[t].tuple.identity == s.received[r].identity;
  }

  /**
   While every client message is one frame, every reply that was ever sent carries the identity of a
   client, and one of its messages that have been read holds the tuple that is answered.
   */
  lemma RepliesGoToTheSender(s: System, k: nat)
    requires Reachable(s) && k < |s.log| && AreOneFrame(s.requests)
    ensures s.log[k].ticket < |s.items|
    ensures var tuple := s.items[s.log[k].ticket].tuple;
            exists r :: 0 <= r < |s.requests| && IsOneFrame(s.requests[r])
                        && tuple in DecodeFrame(s.decoder, s.requests[r].parts[0], s.requests[r].identity)
                        && s.log[k].envelope.identity == s.requests[r].identity
  {
    hide LanesOk;
    hide RepliesOk;
    hide DatabaseOk;
    hide CrashOk;
    hide DecodeFrame;
    hide Reachable;
    var r := RepliesGoToTheirPair(s, k);
    ReachableIsInOrder(s);
    assert s.requests[r] in s.requests && IsOneFrame(s.requests[r]);
    assert s.received[r] == MeantEnvelopes(s.requests)[r];
  }

  /**
   It needs that condition: after a message of three parts the worker holds a second pair, whose
   tuples are answered to the message's second part instead of the client that sent it.
   */
  lemma ThreePartsAreMisaddressed(decoder: Parsers, base: Database, identity: Bytes, a: Bytes, b: Bytes, c: Bytes)
    ensures exists s :: Reachable(s) && !s.crashed && s.requests == [Request(identity, [a, b, c])]
                        && s.received == [Envelope(identity, a), Envelope(b, c)]
  {
    var request := Request(identity, [a, b, c]);
    var s := Start(decoder, 1, 1, base);
    var s1 := Next(s, Arrive(0, request));
    assert s1.inboxes[0] == [request];
    ThreePartsAreTwoPairs(identity, a, b, c);
    var randoms := seq(|NewTuples(s1, 0)|, i => 0);
    var s2 := Next(s1, Receive(0, randoms));
    assert [] + [request] == [request] && s2.received == PairsOf([request]);
    TwoStepsReach(s, Arrive(0, request), Receive(0, randoms));
    assert Reachable(s2);
  }

  lemma TwoStepsReach(s: System, first: Step, second: Step)
    requires Enabled(s, first) && Enabled(Next(s, first), second)
    ensures Reaches(s, [first, second], Next(Next(s, first), second))
  {
    hide Enabled;
    hide Next;
    var s1, steps := Next(s, first), [first, second];
    var s2 := Next(s1, second);
    assert steps[1..] == [second] && [second][1..] == [];
    assert Reaches(s2, [], s2) && Reaches(s1, [second], s2);
  }

  /**
   A finished tuple has had one reply per definition it ran, and one for everything else; one that
   crashed the server has had those to its definitions.
   */
  lemma FinishedTuplesAreAnswered(s: System, t: nat)
    requires Reachable(s) && t < |s.items| && s.items[t].place.IsOut()
    ensures var tuple := s.items[t].tuple;
            var answers := s.items[t].place.answers;
            && |answers| == |tuple.messages|
            && var processed := Run(tuple.id, tuple.messages, answers).processed;
            && processed <= |tuple.messages|
            && |RepliesTo(s.log, t)| == if s.items[t].place.Broken? then NumDefinitions(tuple.messages[..processed])
                                        else ExpectedReplies(tuple.messages[..processed])
  {
    hide LanesOk;
    hide DatabaseOk;
    hide Run;
    ReachableIsInOrder(s);
    var item := s.items[t];
    assert item in s.items && ItemOk(item);
    ReplyCount(item.tuple.id, item.tuple.messages, item.place.answers);
    OpenMeansNoCrash(item.tuple.id, item.tuple.messages, item.place.answers);
  }

  /** What a worker has forwarded and still has to forward is what went into its sink, in order. */
  lemma SinksKeepOrder(s: System, w: nat)
    requires Reachable(s) && w < |s.sinks|
    ensures |s.forwarded| == |s.sinks| && s.forwarded[w] + s.sinks[w] == Through(s.log, w)
  {
    hide LanesOk;
    hide DatabaseOk;
    ReachableIsInOrder(s);
  }

  // ---------------------------------------------------------------- bounds and lifetimes

  /** No executor ever has more than 1024 transactions in flight, and its counters agree. */
  lemma InFlightIsBounded(s: System, e: nat)
    requires Reachable(s) && e < |s.lanes|
    ensures var l := s.lanes[e]; |l.pending| + l.completed == l.total <= 1024
  {
    hide RepliesOk;
    hide DatabaseOk;
    ReachableIsInOrder(s);
    assert LaneOk(s.items, s.owners, s.lanes[e], e);
  }

  /**
   An executor goes on taking tuples until 1024 transactions are in flight, and then it waits: whatever it
   executes, in the order of its work list, is in flight exactly when a transaction was prepared for it.
   */
  lemma FlushesAtExactly1024(s: System, e: nat, answers: seq<Answer>)
    requires Enabled(s, Execute(e, answers))
    ensures var (l, l') := (s.lanes[e], Next(s, Execute(e, answers)).lanes[e]);
            var tuple := s.items[l.todo[0]].tuple;
            var inFlight := if Run(tuple.id, tuple.messages, answers).open then [l.todo[0]] else [];
            && l'.todo == l.todo[1..] && l'.pending == l.pending + inFlight
            && (l'.flushing <==> l.total + |inFlight| == 1024)
            && forall e' :: 0 <= e' < |s.lanes| && e' != e ==> Next(s, Execute(e, answers)).lanes[e'] == s.lanes[e']
  {
    hide Run;
    hide ReplyEnvelopes;
  }

  /**
   Executor e answers through the sink of worker e modulo the number of workers, and through no other:
   the replies to a tuple while it is executed, and the callback's later.
   */
  lemma RepliesTakeTheExecutorsSink(s: System, e: nat, step: Step)
    requires step.Execute? || step.Complete?
    requires step.lane == e && Enabled(s, step)
    ensures var next := Next(s, step);
            && |next.sinks| == |s.sinks| && next.forwarded == s.forwarded
            && forall w :: 0 <= w < |s.sinks| ==>
                 next.sinks[w] == s.sinks[w]
                 + if w != e % |s.sinks| then [] else
                     var t := if step.Execute? then s.lanes[e].todo[0] else s.lanes[e].pending[step.k];
                     var tuple := s.items[t].tuple;
                     var run := Run(tuple.id, tuple.messages,
                                    if step.Execute? then step.answers else s.items[t].place.answers);
                     if step.Execute? then ReplyEnvelopes(tuple.identity, run.replies)
                     else [ReplyEnvelope(tuple.identity,
                                         CallbackReply(tuple.id, run.operations, step.verdict, step.fetched))]
  {
    hide Run;
    hide ReplyEnvelopes;
    hide ReplyEnvelope;
    hide CallbackReply;
    hide AfterCallback;
    forall w | 0 <= w < |s.sinks|
      ensures s.sinks[w] + [] == s.sinks[w]
    {
    }
  }

  /**
   No callback reads freed data: the tuple of a pending transaction is in a list that is still
   live, and that the executor of the transaction has adopted.
   */
  lemma PendingTuplesAreLive(s: System, e: nat, t: nat)
    requires Reachable(s) && e < |s.lanes| && t in s.lanes[e].pending
    ensures t < |s.items| && s.items[t].place.Pending?
    ensures var a := s.items[t].place.address; a in s.owners && s.owners[a] == Adopted(e) && a in s.lanes[e].batch
  {
    hide RepliesOk;
    hide DatabaseOk;
    ReachableIsInOrder(s);
    assert LaneOk(s.items, s.owners, s.lanes[e], e);
    assert IsPending(Held(s.items, t, e));
  }

  /** Every live pointer is in one queue or one batch, of one executor, once. */
  lemma PointersHaveOneOwner(s: System, e: nat, other: nat, a: nat)
    requires Reachable(s) && e < |s.lanes| && other < |s.lanes|
    ensures a in AddressesOf(s.lanes[e].inbox) &&
              (a in AddressesOf(s.lanes[other].inbox) || a in s.lanes[other].batch) ==>
              e == other && a !in s.lanes[other].batch
    ensures a in s.lanes[e].batch && a in s.lanes[other].batch ==> e == other
    ensures Distinct(AddressesOf(s.lanes[e].inbox)) && Distinct(s.lanes[e].batch)
    ensures a in AddressesOf(s.lanes[e].inbox) || a in s.lanes[e].batch ==> a in s.owners
  {
    hide RepliesOk;
    hide DatabaseOk;
    hide HoldsItsTuples;
    hide TuplesInLists;
    ReachableIsInOrder(s);
    assert LaneOk(s.items, s.owners, s.lanes[e], e) && LaneOk(s.items, s.owners, s.lanes[other], other);
  }

  predicate IsHandled(l: Lane, a: nat) { a in AddressesOf(l.inbox) || a in l.batch }

  /** Every live pointer is in some queue or batch: no list is forgotten. */
  lemma LivePointersAreHeld(s: System, a: nat)
    requires Reachable(s)
    ensures a in s.owners <==> exists e :: 0 <= e < |s.lanes| && IsHandled(s.lanes[e], a)
  {
    hide RepliesOk;
    hide DatabaseOk;
    hide HoldsItsTuples;
    hide TuplesInLists;
    ReachableIsInOrder(s);
    if a in s.owners {
      var e := s.owners[a].lane;
      assert LaneOk(s.items, s.owners, s.lanes[e], e);
      assert IsHandled(s.lanes[e], a);
    }
    forall e | 0 <= e < |s.lanes| && IsHandled(s.lanes[e], a)
      ensures a in s.owners
    {
      assert LaneOk(s.items, s.owners, s.lanes[e], e);
    }
  }

  // ---------------------------------------------------------------- the database

  /**
   The database is what the ended transactions made of it, each once, in the order they ended,
   and each with all its tuple's operations or none.
   */
  lemma DatabaseIsTheCommits(s: System)
    requires Reachable(s)
    ensures s.db == DatabaseAfterEnded(s.base, s.items, s.ended) && Distinct(s.ended)
    ensures forall t: nat :: t in s.ended <==> t < |s.items| && s.items[t].place.Ended?
  {
    hide LanesOk;
    hide RepliesOk;
    ReachableIsInOrder(s);
  }

  // ---------------------------------------------------------------- coming to rest

  predicate AtRest(s: System) {
    && (forall w :: 0 <= w < |s.inboxes| ==> s.inboxes[w] == [])
    && (forall w :: 0 <= w < |s.sinks| ==> s.sinks[w] == [])
    && (forall e :: 0 <= e < |s.lanes| ==> s.lanes[e].batch == [] && s.lanes[e].inbox == [])
    && forall item :: item in s.items ==> item.place.IsFinished()
  }

  /** At rest every list has been freed. */
  lemma NothingLeaksAtRest(s: System)
    requires Reachable(s) && AtRest(s)
    ensures s.owners == map[]
  {
    hide Reachable;
    forall a | a in s.owners
      ensures false
    {
      LivePointersAreHeld(s, a);
    }
  }

  function AnyAnswers(n: nat): (answers: seq<Answer>)
    ensures |answers| == n
  {
    var ndb := GetPlanning.NdbAnswers(false, false, None, false, false);
    seq(n, i => Answer(None, false, false, None, ndb, NdbError(0, [])))
  }

  /** A step of executor e, which has a batch or a queue. */
  function BusyStep(s: System, e: nat): Step
    requires e < |s.lanes|
  {
    var l := s.lanes[e];
    if l.batch == [] then Take(e, 1)
    else if l.flushing then
      if l.completed == l.total then FlushDone(e) else Complete(e, 0, Committed, [])
    else if l.todo != [] then
      Execute(e, AnyAnswers(if l.todo[0] < |s.items| then |s.items[l.todo[0]].tuple.messages| else 0))
    else if l.total > 0 then Wait(e)
    else Finish(e)
  }

  lemma PendingCanComplete(s: System, e: nat)
    requires Inv(s) && !s.crashed && e < |s.lanes| && s.sinks != [] && s.lanes[e].flushing && s.lanes[e].pending != []
    ensures Enabled(s, Complete(e, 0, Committed, []))
  {
    hide DatabaseOk;
    hide Run;
    hide ReplyEnvelopes;
    hide RepliesTo;
    hide Through;
    var t := s.lanes[e].pending[0];
    assert LaneOk(s.items, s.owners, s.lanes[e], e);
    assert t in s.lanes[e].pending && IsPending(Held(s.items, t, e));
    assert s.items[t] in s.items && ItemOk(s.items[t]);
  }

  lemma TodoCanExecute(s: System, e: nat)
    requires Inv(s) && !s.crashed && e < |s.lanes| && s.sinks != [] && !s.lanes[e].flushing && s.lanes[e].todo != []
    ensures var t := s.lanes[e].todo[0];
            t < |s.items| && Enabled(s, Execute(e, AnyAnswers(|s.items[t].tuple.messages|)))
  {
    hide DatabaseOk;
    hide RepliesOk;
    assert LaneOk(s.items, s.owners, s.lanes[e], e);
    assert s.lanes[e].todo[0] in s.lanes[e].todo && IsTodo(Held(s.items, s.lanes[e].todo[0], e));
  }

  lemma BusyLaneCanStep(s: System, e: nat)
    requires Inv(s) && !s.crashed && e < |s.lanes| && s.sinks != []
    requires s.lanes[e].batch != [] || s.lanes[e].inbox != []
    ensures Enabled(s, BusyStep(s, e))
  {
    hide DatabaseOk;
    hide RepliesOk;
    hide HoldsItsTuples;
    hide TuplesInLists;
    hide OwnsItsLists;
    var l := s.lanes[e];
    assert LaneOk(s.items, s.owners, l, e);
    if l.batch != [] && l.flushing && l.completed != l.total {
      PendingCanComplete(s, e);
    } else if l.batch != [] && !l.flushing && l.todo != [] {
      TodoCanExecute(s, e);
    }
  }

  lemma UnfinishedIsHeld(s: System, t: nat)
    requires Inv(s) && t < |s.items| && !s.items[t].place.IsOut()
    ensures var e := s.items[t].place.lane;
            e < |s.lanes| && (s.lanes[e].batch != [] || s.lanes[e].inbox != [])
  {
    hide DatabaseOk;
    hide RepliesOk;
    var e := s.items[t].place.lane;
    assert LaneOk(s.items, s.owners, s.lanes[e], e);
    assert Held(s.items, t, e) == Some(s.items[t].place);
    if s.items[t].place.Queued? {
      InTickets(s.lanes[e].inbox, t);
    }
  }

  lemma SomeLaneIsBusy(s: System)
    requires Inv(s) && !s.crashed && !AtRest(s)
    requires (forall w :: 0 <= w < |s.inboxes| ==> s.inboxes[w] == []) && forall w :: 0 <= w < |s.sinks| ==>
               s.sinks[w] == []
    ensures exists e: nat :: e < |s.lanes| && (s.lanes[e].batch != [] || s.lanes[e].inbox != [])
  {
    hide LanesOk;
    hide RepliesOk;
    hide DatabaseOk;
    assert forall item :: item in s.items && item.place.IsOut() ==> item.place.IsFinished();
    if t: nat :| t < |s.items| && !s.items[t].place.IsOut() {
      UnfinishedIsHeld(s, t);
    }
  }

  /** Without a crash, as long as anything is left to do, some step other than a new request is possible. */
  lemma NeverStuck(s: System)
    requires Inv(s) && !s.crashed && s.sinks != [] && s.lanes != [] && !AtRest(s)
    ensures exists step: Step :: !step.Arrive? && Enabled(s, step)
  {
    hide Inv;
    if w: nat :| w < |s.inboxes| && s.inboxes[w] != [] {
      assert Enabled(s, Receive(w, seq(|NewTuples(s, w)|, i => 0)));
    } else if v: nat :| v < |s.sinks| && s.sinks[v] != [] {
      CanForward(s, v);
      assert !Forward(v).Arrive?;
    } else {
      SomeLaneIsBusy(s);
      var e: nat :| e < |s.lanes| && (s.lanes[e].batch != [] || s.lanes[e].inbox != []);
      BusyLaneCanStep(s, e);
      assert !BusyStep(s, e).Arrive?;
    }
  }

  lemma CanForward(s: System, v: nat)
    requires Inv(s) && !s.crashed && v < |s.sinks| && s.sinks[v] != []
    ensures Enabled(s, Forward(v))
  {
    hide LanesOk;
    hide DatabaseOk;
  }
}
