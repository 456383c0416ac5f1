/** Every step of the pipeline keeps the replies, the requests and the database in order. */
module PipelineReplies {
  import opened Wrappers
  import opened Wire
  import opened Messages
  import opened ResultCodec
  import opened FrameDecoding
  import opened Transport
  import opened Requests
  import opened MessageProcessing
  import opened NdbTables
  import opened TupleRuns
  import opened Execution
  import opened Pipeline
  import opened PipelinePlaces

  // ---------------------------------------------------------------- the log

  lemma {:induction false} RepliesToGrow(log: seq<Reply>, t: nat, w: nat, es: seq<Envelope>, u: nat)
    ensures RepliesTo(log + LogEntries(t, w, es), u) == RepliesTo(log, u) + if u == t then es else []
  {
    if es == [] {
      assert log + LogEntries(t, w, es) == log;
    } else {
      var last := |es| - 1;
      var longer := log + LogEntries(t, w, es);
      assert longer[..|longer| - 1] == log + LogEntries(t, w, es[..last]);
      RepliesToGrow(log, t, w, es[..last], u);
      assert es[..last] + [es[last]] == es;
    }
  }

  lemma {:induction false} ThroughGrows(log: seq<Reply>, t: nat, w: nat, es: seq<Envelope>, v: nat)
    ensures Through(log + LogEntries(t, w, es), v) == Through(log, v) + if v == w then es else []
  {
    if es == [] {
      assert log + LogEntries(t, w, es) == log;
    } else {
      var last := |es| - 1;
      var longer := log + LogEntries(t, w, es);
      assert longer[..|longer| - 1] == log + LogEntries(t, w, es[..last]);
      ThroughGrows(log, t, w, es[..last], v);
      assert es[..last] + [es[last]] == es;
    }
  }

  lemma {:induction false} NoRepliesYet(log: seq<Reply>, t: nat)
    requires forall r :: r in log ==> r.ticket != t
    ensures RepliesTo(log, t) == []
  {
    if log != [] {
      NoRepliesYet(log[..|log| - 1], t);
    }
  }

  // ---------------------------------------------------------------- replies

  ghost predicate LogOk(s: System) {
    && (forall t :: 0 <= t < |s.items| ==> RepliesTo(s.log, t) == s.items[t].replies)
    && forall r :: r in s.log ==> r.ticket < |s.items|
  }

  ghost predicate SinksOk(s: System) {
    && |s.sinks| == |s.forwarded| == |s.inboxes|
    && (forall w :: 0 <= w < |s.sinks| ==> s.forwarded[w] + s.sinks[w] == Through(s.log, w))
    && forall r :: r in s.log ==> r.sink < |s.sinks|
  }

  lemma WithRepliesKeepsLog(s: System, e: nat, t: nat, es: seq<Envelope>, place: Place)
    requires LogOk(s) && s.sinks != [] && t < |s.items|
    ensures LogOk(WithReplies(s, e, t, es, place))
  {
    var s' := WithReplies(s, e, t, es, place);
    forall u | 0 <= u < |s'.items|
      ensures RepliesTo(s'.log, u) == s'.items[u].replies
    {
      RepliesToGrow(s.log, t, SinkOf(s, e), es, u);
    }
  }

  lemma WithRepliesKeepsSinks(s: System, e: nat, t: nat, es: seq<Envelope>, place: Place)
    requires SinksOk(s) && s.sinks != [] && t < |s.items|
    ensures SinksOk(WithReplies(s, e, t, es, place))
  {
    var s' := WithReplies(s, e, t, es, place);
    var w := SinkOf(s, e);
    forall v | 0 <= v < |s'.sinks|
      ensures s'.forwarded[v] + s'.sinks[v] == Through(s'.log, v)
    {
      ThroughGrows(s.log, t, w, es, v);
      if v == w {
        assert s.forwarded[v] + (s.sinks[v] + es) == (s.forwarded[v] + s.sinks[v]) + es;
      }
    }
  }

  lemma CallbackIsTheLastReply(identity: Bytes, id: Bytes, run: RunState, verdict: Verdict, fetched: seq<seq<Row>>)
    requires run.open
    ensures ReplyEnvelopes(identity, run.replies)
              + [ReplyEnvelope(identity, CallbackReply(id, run.operations, verdict, fetched))]
            == ReplyEnvelopes(identity, AllReplies(id, run, verdict, fetched))
  {
  }

  lemma ExecuteKeepsReplies(s: System, e: nat, answers: seq<Answer>)
    requires RepliesOk(s) && Enabled(s, Execute(e, answers))
    ensures RepliesOk(AfterExecute(s, e, answers))
  {
    hide RepliesTo;
    hide Through;
    hide LogEntries;
    hide ReplyEnvelopes;
    hide Run;
    var s', t := AfterExecute(s, e, answers), s.lanes[e].todo[0];
    var tuple := s.items[t].tuple;
    var run := Run(tuple.id, tuple.messages, answers);
    var es := ReplyEnvelopes(tuple.identity, run.replies);
    assert s.items[t] in s.items && s.items[t].replies == [] && [] + es == es;
    var moved := WithReplies(s, e, t, es, s'.items[t].place);
    WithRepliesKeepsLog(s, e, t, es, s'.items[t].place);
    WithRepliesKeepsSinks(s, e, t, es, s'.items[t].place);
    assert s'.items == moved.items && s'.log == moved.log && s'.sinks == moved.sinks;
    assert ItemOk(s'.items[t]);
  }

  lemma CompleteKeepsReplies(s: System, e: nat, k: nat, verdict: Verdict, fetched: seq<seq<Row>>)
    requires RepliesOk(s) && Enabled(s, Complete(e, k, verdict, fetched))
    ensures RepliesOk(AfterComplete(s, e, k, verdict, fetched))
  {
    hide RepliesTo;
    hide Through;
    hide LogEntries;
    hide ReplyEnvelopes;
    hide ReplyEnvelope;
    hide AllReplies;
    hide Run;
    hide CallbackReply;
    var s', t := AfterComplete(s, e, k, verdict, fetched), s.lanes[e].pending[k];
    var tuple := s.items[t].tuple;
    var run := Run(tuple.id, tuple.messages, s.items[t].place.answers);
    var es := [ReplyEnvelope(tuple.identity, CallbackReply(tuple.id, run.operations, verdict, fetched))];
    assert s.items[t] in s.items;
    CallbackIsTheLastReply(tuple.identity, tuple.id, run, verdict, fetched);
    var moved := WithReplies(s, e, t, es, s'.items[t].place);
    WithRepliesKeepsLog(s, e, t, es, s'.items[t].place);
    WithRepliesKeepsSinks(s, e, t, es, s'.items[t].place);
    assert s'.items == moved.items && s'.log == moved.log && s'.sinks == moved.sinks;
    assert ItemOk(s'.items[t]);
  }

  lemma ScatterKeepsReplies(s: System, w: nat, randoms: seq<nat>)
    requires RepliesOk(s) && Enabled(s, Receive(w, randoms))
    ensures RepliesOk(AfterScatter(s, w, randoms))
  {
    hide RepliesTo;
    hide Through;
    hide NewTuples;
    hide NewOwners;
    hide Deliver;
    hide AllReplies;
    hide ReplyEnvelopes;
    hide Run;
    var s' := AfterScatter(s, w, randoms);
    forall t | 0 <= t < |s'.items|
      ensures RepliesTo(s'.log, t) == s'.items[t].replies
    {
      if t >= |s.items| {
        NoRepliesYet(s.log, t);
      }
    }
  }

  lemma ReceiveKeepsReplies(s: System, w: nat, randoms: seq<nat>)
    requires RepliesOk(s) && Enabled(s, Receive(w, randoms))
    ensures RepliesOk(AfterReceive(s, w, randoms))
  {
    hide ItemOk;
    if !IsMisread(s.inboxes[w]) {
      ScatterKeepsReplies(s, w, randoms);
    }
  }

  lemma TakeKeepsReplies(s: System, e: nat, count: nat)
    requires RepliesOk(s) && Enabled(s, Take(e, count))
    ensures RepliesOk(AfterTake(s, e, count))
  {
    hide ReplyEnvelopes;
    hide Run;
    hide RepliesTo;
    hide TicketsOf;
    var s' := AfterTake(s, e, count);
    forall t | 0 <= t < |s'.items|
      ensures ItemOk(s'.items[t])
    {
      assert s.items[t] in s.items;
    }
  }

  lemma OtherStepsKeepReplies(s: System, step: Step)
    requires RepliesOk(s) && Enabled(s, step)
    requires !step.Receive? && !step.Take? && !step.Execute? && !step.Complete?
    ensures RepliesOk(Next(s, step))
  {
    hide ItemOk;
    hide RepliesTo;
    hide Through;
    var s' := Next(s, step);
    assert s'.items == s.items && s'.log == s.log;
    if step.Forward? {
      var w := step.worker;
      assert (s.forwarded[w] + s.sinks[w]) + [] == s.forwarded[w] + s.sinks[w];
    }
  }

  /** No step loses, repeats, invents or redirects a reply. */
  lemma StepKeepsReplies(s: System, step: Step)
    requires RepliesOk(s) && Enabled(s, step)
    ensures RepliesOk(Next(s, step))
  {
    hide RepliesOk;
    hide CanDo;
    hide AfterReceive;
    hide AfterTake;
    hide AfterExecute;
    hide AfterComplete;
    match step
    case Receive(w, randoms) => ReceiveKeepsReplies(s, w, randoms);
    case Take(e, count) => TakeKeepsReplies(s, e, count);
    case Execute(e, answers) => ExecuteKeepsReplies(s, e, answers);
    case Complete(e, k, verdict, fetched) => CompleteKeepsReplies(s, e, k, verdict, fetched);
    case _ => OtherStepsKeepReplies(s, step);
  }

  // ---------------------------------------------------------------- requests and database

  lemma {:induction false} DecodeConcat(p: Parsers, a: seq<Envelope>, b: seq<Envelope>)
    ensures DecodeEnvelopes(p, a + b) == DecodeEnvelopes(p, a) + DecodeEnvelopes(p, b)
  {
    hide DecodeFrame;
    if b == [] {
      assert a + b == a;
    } else {
      var last := |b| - 1;
      DecodeConcat(p, a, b[..last]);
      assert (a + b)[..|a + b| - 1] == a + b[..last];
      TuplesAssociate(DecodeEnvelopes(p, a), DecodeEnvelopes(p, b[..last]),
          DecodeFrame(p, b[last].frame, b[last].identity));
    }
  }

  lemma TuplesAssociate(a: seq<TupleValue>, b: seq<TupleValue>, c: seq<TupleValue>)
    ensures a + b + c == a + (b + c)
  {
  }

  lemma {:induction false} SameDatabase(base: Database, items: seq<Item>, items': seq<Item>, ended: seq<nat>)
    requires |items| <= |items'|
    requires forall t :: t in ended ==>
               t < |items| && items[t].place == items'[t].place && items[t].tuple == items'[t].tuple
    ensures DatabaseAfterEnded(base, items', ended) == DatabaseAfterEnded(base, items, ended)
  {
    if ended != [] {
      var last := |ended| - 1;
      assert forall t :: t in ended[..last] ==> t in ended;
      assert ended[last] in ended;
      SameDatabase(base, items, items', ended[..last]);
    }
  }

  lemma ScatterKeepsDatabase(s: System, w: nat, randoms: seq<nat>)
    requires DatabaseOk(s) && Enabled(s, Receive(w, randoms))
    ensures DatabaseOk(AfterScatter(s, w, randoms))
  {
    hide DecodeEnvelopes;
    hide DatabaseAfterEnded;
    hide Choices;
    var s' := AfterScatter(s, w, randoms);
    DecodeConcat(s.decoder, s.received, PairsOf(s.inboxes[w]));
    assert TuplesOf(s'.items) == TuplesOf(s.items) + NewTuples(s, w);
    forall t | t in s.ended
      ensures t < |s.items| && s'.items[t] == s.items[t]
    {
    }
    SameDatabase(s.base, s.items, s'.items, s.ended);
  }

  lemma ReceiveKeepsDatabase(s: System, w: nat, randoms: seq<nat>)
    requires DatabaseOk(s) && Enabled(s, Receive(w, randoms))
    ensures DatabaseOk(AfterReceive(s, w, randoms))
  {
    hide DecodeEnvelopes;
    hide DatabaseAfterEnded;
    if !IsMisread(s.inboxes[w]) {
      ScatterKeepsDatabase(s, w, randoms);
    }
  }

  lemma TakeKeepsDatabase(s: System, e: nat, count: nat)
    requires DatabaseOk(s) && Enabled(s, Take(e, count))
    ensures DatabaseOk(AfterTake(s, e, count))
  {
    hide TicketsOf;
    var s' := AfterTake(s, e, count);
    assert TuplesOf(s'.items) == TuplesOf(s.items);
    SameDatabase(s.base, s.items, s'.items, s.ended);
  }

  lemma ExecuteKeepsDatabase(s: System, e: nat, answers: seq<Answer>)
    requires DatabaseOk(s) && Enabled(s, Execute(e, answers))
    ensures DatabaseOk(AfterExecute(s, e, answers))
  {
    hide Run;
    hide ReplyEnvelopes;
    var s' := AfterExecute(s, e, answers);
    assert TuplesOf(s'.items) == TuplesOf(s.items);
    SameDatabase(s.base, s.items, s'.items, s.ended);
  }

  lemma PendingHasAllOperations(item: Item)
    requires ItemOk(item) && item.place.Pending?
    ensures |item.place.answers| == |item.tuple.messages|
    ensures Run(item.tuple.id, item.tuple.messages, item.place.answers).operations == Operations(item.tuple.messages)
  {
    hide ReplyEnvelopes;
    hide Run;
    RunsWell(item.tuple.id, item.tuple.messages, item.place.answers);
  }

  lemma OneMoreEnded(base: Database, items: seq<Item>, ended: seq<nat>, t: nat)
    requires t < |items| && items[t].place.Ended?
    ensures DatabaseAfterEnded(base, items, ended + [t])
            == AfterCallback(DatabaseAfterEnded(base, items, ended), Operations(items[t].tuple.messages),
                             items[t].place.verdict)
  {
    hide AfterCallback;
    hide Operations;
    assert (ended + [t])[..|ended|] == ended;
  }

  lemma EndedGrows(items: seq<Item>, items': seq<Item>, ended: seq<nat>, t: nat)
    requires forall u: nat :: u in ended <==> u < |items| && items[u].place.Ended?
    requires t < |items| == |items'| && items[t].place.Pending?
    requires items' == items[t := items'[t]] && items'[t].place.Ended?
    requires Distinct(ended)
    ensures forall u: nat :: u in ended + [t] <==> u < |items'| && items'[u].place.Ended?
    ensures Distinct(ended + [t])
  {
    assert t !in ended;
    DistinctPlus(ended, t);
  }

  /** A transaction that ends takes effect with all the operations of its tuple, or not at all. */
  lemma CompleteKeepsDatabase(s: System, e: nat, k: nat, verdict: Verdict, fetched: seq<seq<Row>>)
    requires DatabaseOk(s) && RepliesOk(s) && Enabled(s, Complete(e, k, verdict, fetched))
    ensures DatabaseOk(AfterComplete(s, e, k, verdict, fetched))
  {
    hide Run;
    hide CallbackReply;
    hide ReplyEnvelope;
    hide ReplyEnvelopes;
    hide LogEntries;
    hide DatabaseAfterEnded;
    hide AfterCallback;
    hide Operations;
    hide ItemOk;
    hide RepliesTo;
    hide Through;
    hide DecodeEnvelopes;
    hide Distinct;
    var s', t := AfterComplete(s, e, k, verdict, fetched), s.lanes[e].pending[k];
    assert s.items[t] in s.items && ItemOk(s.items[t]);
    PendingHasAllOperations(s.items[t]);
    assert s'.items == s.items[t := s'.items[t]];
    EndedGrows(s.items, s'.items, s.ended, t);
    OneMoreEnded(s.base, s'.items, s.ended, t);
    assert TuplesOf(s'.items) == TuplesOf(s.items);
    SameDatabase(s.base, s.items, s'.items, s.ended);
  }

  lemma OtherStepsKeepDatabase(s: System, step: Step)
    requires DatabaseOk(s) && Enabled(s, step)
    requires !step.Receive? && !step.Take? && !step.Execute? && !step.Complete?
    ensures DatabaseOk(Next(s, step))
  {
    hide DatabaseAfterEnded;
    hide DecodeEnvelopes;
    var s' := Next(s, step);
    assert s'.items == s.items && s'.received == s.received && s'.ended == s.ended && s'.db == s.db;
  }

  lemma StepKeepsDatabase(s: System, step: Step)
    requires DatabaseOk(s) && RepliesOk(s) && Enabled(s, step)
    ensures DatabaseOk(Next(s, step))
  {
    hide DatabaseOk;
    hide RepliesOk;
    hide CanDo;
    hide AfterReceive;
    hide AfterTake;
    hide AfterExecute;
    hide AfterComplete;
    match step
    case Receive(w, randoms) => ReceiveKeepsDatabase(s, w, randoms);
    case Take(e, count) => TakeKeepsDatabase(s, e, count);
    case Execute(e, answers) => ExecuteKeepsDatabase(s, e, answers);
    case Complete(e, k, verdict, fetched) => CompleteKeepsDatabase(s, e, k, verdict, fetched);
    case _ => OtherStepsKeepDatabase(s, step);
  }
}
