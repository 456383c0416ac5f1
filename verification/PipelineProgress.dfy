/** Every step but a new request brings the pipeline closer to rest, so it gets there. */
module PipelineProgress {
  import opened Wrappers
  import opened Wire
  import opened FrameDecoding
  import opened Transport
  import opened Requests
  import opened MessageProcessing
  import opened NdbTables
  import opened TupleRuns
  import opened ResultCodec
  import opened Execution
  import opened Pipeline
  import opened PipelinePlaces
  import opened PipelineReplies
  import opened PipelineSafety

  function SumOver<T>(xs: seq<T>, f: T -> nat): nat {
    if xs == [] then 0
    else
      var last := |xs| - 1;
      SumOver(xs[..last], f) + f(xs[last])
  }

  lemma {:induction false} SumOverUpdate<T>(xs: seq<T>, i: nat, x: T, f: T -> nat)
    requires i < |xs|
    ensures SumOver(xs[i := x], f) + f(xs[i]) == SumOver(xs, f) + f(x)
  {
    var last := |xs| - 1;
    if i < last {
      SumOverUpdate(xs[..last], i, x, f);
      assert xs[i := x][..last] == xs[..last][i := x];
    } else {
      assert xs[i := x][..last] == xs[..last];
    }
  }

  /** An executor with pending transactions has to start waiting; one without has to stop. */
  function Phase(l: Lane): nat {
    if (l.pending != []) == l.flushing then 0 else 1
  }

  /** What is left to do, most significant first. */
  datatype Rank = Rank(requests: nat, handles: nat, todo: nat, pending: nat, phases: nat, batches: nat, replies: nat)
  {
    predicate Below(other: Rank) {
      || requests < other.requests
      || (requests == other.requests &&
          (|| handles < other.handles
           || (handles == other.handles &&
               (|| todo < other.todo
                || (todo == other.todo &&
                    (|| pending < other.pending
                     || (pending == other.pending &&
                         (|| phases < other.phases
                          || (phases == other.phases &&
                              (|| batches < other.batches
                               || (batches == other.batches && replies < other.replies)))))))))))
    }
  }

  function RankOf(s: System): Rank {
    Rank(SumOver(s.inboxes, (rs: seq<Request>) => |rs|),
         SumOver(s.lanes, (l: Lane) => |l.inbox|),
         SumOver(s.lanes, (l: Lane) => |l.todo|),
         SumOver(s.lanes, (l: Lane) => |l.pending|),
         SumOver(s.lanes, (l: Lane) => Phase(l)),
         SumOver(s.lanes, (l: Lane) => |l.batch|),
         SumOver(s.sinks, (es: seq<Envelope>) => |es|))
  }

  /** Changing one executor changes the sums by its share. */
  lemma LaneChange(s: System, e: nat, l: Lane)
    requires e < |s.lanes|
    ensures var s' := s.(lanes := s.lanes[e := l]);
            var (was, before, after) := (s.lanes[e], RankOf(s), RankOf(s'));
            && after.requests == before.requests && after.replies == before.replies
            && after.handles + |was.inbox| == before.handles + |l.inbox|
            && after.todo + |was.todo| == before.todo + |l.todo|
            && after.pending + |was.pending| == before.pending + |l.pending|
            && after.phases + Phase(was) == before.phases + Phase(l)
            && after.batches + |was.batch| == before.batches + |l.batch|
  {
    SumOverUpdate(s.lanes, e, l, (l: Lane) => |l.inbox|);
    SumOverUpdate(s.lanes, e, l, (l: Lane) => |l.todo|);
    SumOverUpdate(s.lanes, e, l, (l: Lane) => |l.pending|);
    SumOverUpdate(s.lanes, e, l, (l: Lane) => Phase(l));
    SumOverUpdate(s.lanes, e, l, (l: Lane) => |l.batch|);
  }

  /** An executor's own rank: its queue, its work, and where it is in the batch. */
  ghost predicate LaneBelow(l': Lane, l: Lane) {
    || |l'.inbox| < |l.inbox|
    || (|l'.inbox| == |l.inbox| &&
        (|| |l'.todo| < |l.todo|
         || (|l'.todo| == |l.todo| &&
             (|| |l'.pending| < |l.pending|
              || (|l'.pending| == |l.pending| &&
                  (|| Phase(l') < Phase(l)
                   || (Phase(l') == Phase(l) && |l'.batch| < |l.batch|)))))))
  }

  lemma ExecuteGoesDown(s: System, e: nat, answers: seq<Answer>)
    requires Enabled(s, Execute(e, answers))
    ensures LaneBelow(AfterExecute(s, e, answers).lanes[e], s.lanes[e])
  {
    hide Run;
    hide ReplyEnvelopes;
  }

  lemma CompleteGoesDown(s: System, e: nat, k: nat, verdict: Verdict, fetched: seq<seq<Row>>)
    requires Enabled(s, Complete(e, k, verdict, fetched))
    ensures LaneBelow(AfterComplete(s, e, k, verdict, fetched).lanes[e], s.lanes[e])
  {
    hide Run;
    hide ReplyEnvelope;
    hide CallbackReply;
  }

  lemma PhasesGoDown(s: System, step: Step)
    requires Inv(s) && Enabled(s, step) && (step.Take? || step.Wait? || step.FlushDone? || step.Finish?)
    ensures LaneBelow(Next(s, step).lanes[step.lane], s.lanes[step.lane])
  {
    hide RepliesOk;
    hide DatabaseOk;
    hide CrashOk;
    hide HoldsItsTuples;
    hide OwnsItsLists;
    hide TuplesInLists;
    assert LaneOk(s.items, s.owners, s.lanes[step.lane], step.lane);
    if step.Take? {
      IdleLane(s.items, s.owners, s.lanes[step.lane], step.lane);
    }
  }

  lemma LaneStepGoesDown(s: System, step: Step)
    requires Inv(s) && Enabled(s, step) && !step.Arrive? && !step.Receive? && !step.Forward?
    ensures RankOf(Next(s, step)).Below(RankOf(s))
  {
    hide SumOver;
    hide Phase;
    hide Inv;
    hide Run;
    hide ReplyEnvelopes;
    hide ReplyEnvelope;
    hide CallbackReply;
    var s', e := Next(s, step), step.lane;
    var same := s.(lanes := s.lanes[e := s'.lanes[e]]);
    LaneChange(s, e, s'.lanes[e]);
    assert s'.lanes == same.lanes && s'.inboxes == same.inboxes;
    assert LaneBelow(s'.lanes[e], s.lanes[e]) by {
      match step
      case Execute(_, answers) => ExecuteGoesDown(s, e, answers);
      case Complete(_, k, verdict, fetched) => CompleteGoesDown(s, e, k, verdict, fetched);
      case _ => PhasesGoDown(s, step);
    }
  }

  lemma ReceiveGoesDown(s: System, w: nat, randoms: seq<nat>)
    requires Enabled(s, Receive(w, randoms))
    ensures RankOf(AfterReceive(s, w, randoms)).Below(RankOf(s))
  {
    hide SumOver;
    hide NewTuples;
    hide NewItems;
    hide NewOwners;
    hide Deliver;
    SumOverUpdate(s.inboxes, w, [], (rs: seq<Request>) => |rs|);
  }

  lemma ForwardGoesDown(s: System, w: nat)
    requires Enabled(s, Forward(w))
    ensures RankOf(Next(s, Forward(w))).Below(RankOf(s))
  {
    hide SumOver;
    SumOverUpdate(s.sinks, w, [], (es: seq<Envelope>) => |es|);
  }

  /** Every step but a new request brings the system closer to rest. */
  lemma StepsGoDown(s: System, step: Step)
    requires Inv(s) && Enabled(s, step) && !step.Arrive?
    ensures RankOf(Next(s, step)).Below(RankOf(s))
  {
    hide Inv;
    hide RankOf;
    hide CanDo;
    hide AfterReceive;
    match step
    case Receive(w, randoms) => ReceiveGoesDown(s, w, randoms);
    case Forward(w) => ForwardGoesDown(s, w);
    case _ => LaneStepGoesDown(s, step);
  }

  lemma SizesStay(s: System, step: Step)
    requires Enabled(s, step)
    ensures |Next(s, step).lanes| == |s.lanes| && |Next(s, step).sinks| == |s.sinks|
  {
    hide Run;
    hide ReplyEnvelopes;
  }

  /**
   From every reachable state, without further requests, the steps that are possible lead to a
   state of rest, where every tuple is finished and every reply is forwarded, or to a crash. As all
   of them go down, no order of steps goes on for ever.
   */
  lemma ComesToRest(s: System) returns (steps: seq<Step>, end: System)
    requires Inv(s) && s.sinks != [] && s.lanes != []
    ensures Reaches(s, steps, end) && (AtRest(end) || end.crashed) && forall step :: step in steps ==> !step.Arrive?
    decreases RankOf(s).requests, RankOf(s).handles, RankOf(s).todo, RankOf(s).pending, RankOf(s).phases,
        RankOf(s).batches, RankOf(s).replies
  {
    hide Inv;
    hide RankOf;
    hide AtRest;
    hide Enabled;
    hide Next;
    if AtRest(s) || s.crashed {
      return [], s;
    }
    NeverStuck(s);
    var step: Step :| !step.Arrive? && Enabled(s, step);
    StepsGoDown(s, step);
    StepKeepsOrder(s, step);
    SizesStay(s, step);
    var more;
    more, end := ComesToRest(Next(s, step));
    steps := [step] + more;
    assert steps[1..] == more;
  }
}
