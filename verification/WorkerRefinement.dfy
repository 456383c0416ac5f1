/**
 A worker's round is a run of the state machine: reading and scattering what is queued is one of its
 Receive steps, and sending on what waits in the sink one of its Forward steps.
 */
module WorkerRefinements {
  import opened Wrappers
  import opened Wire
  import opened FrameDecoding
  import opened Transport
  import opened Requests
  import opened MessageProcessing
  import opened NdbTables
  import opened TupleRuns
  import opened Execution
  import opened Pipeline
  import opened PipelinePlaces
  import opened PipelineSafety
  import opened BatchRefinements

  predicate IsWorkerStep(step: Step, w: nat) { (step.Receive? || step.Forward?) && step.worker == w }

  /** What a queue of an executor holds after a bucket was sent to it, or none was. */
  ghost predicate IsSentTo(items: seq<Item>, inbox: seq<Handle>, inbox': seq<Handle>, bucket: seq<TupleValue>) {
    if bucket == [] then inbox' == inbox
    else
      && |inbox'| == |inbox| + 1 && inbox'[..|inbox|] == inbox
      && AreTuples(items, inbox'[|inbox|].tickets, bucket)
  }

  /** What a worker's round leaves behind, besides the queues of the executors. */
  ghost predicate Worked(s: System, s': System, w: nat)
    requires w < |s.inboxes| && w < |s.sinks| && w < |s.forwarded|
  {
    && |s'.inboxes| == |s.inboxes| && |s'.sinks| == |s.sinks| && |s'.forwarded| == |s.forwarded|
    && |s'.lanes| == |s.lanes|
    && s'.inboxes[w] == [] && s'.received == s.received + PairsOf(s.inboxes[w])
    && s'.sinks[w] == [] && s'.forwarded[w] == s.forwarded[w] + s.sinks[w]
  }

  // ---------------------------------------------------------------- what is drawn

  /** The tickets an executor draws are those of its bucket, in order. */
  lemma {:induction false} DrawnIsBucket(items: seq<Item>, tuples: seq<TupleValue>, choices: seq<nat>, first: nat,
                                         e: nat)
    requires |choices| == |tuples| && forall i :: 0 <= i < |tuples| ==> IsTuple(items, first + i, tuples[i])
    ensures AreTuples(items, Drawn(first, choices, e), BucketOf(tuples, choices, e))
  {
    hide IsTuple;
    if tuples != [] {
      var last := |tuples| - 1;
      DrawnIsBucket(items, tuples[..last], choices[..last], first, e);
      assert IsTuple(items, first + last, tuples[last]);
    }
  }

  lemma ScatterSends(s: System, w: nat, randoms: seq<nat>, e: nat)
    requires Enabled(s, Receive(w, randoms)) && e < |s.lanes|
    ensures var s' := AfterScatter(s, w, randoms);
            e < |s'.lanes| && IsSentTo(s'.items, s.lanes[e].inbox, s'.lanes[e].inbox,
                                       BucketOf(NewTuples(s, w), Choices(randoms, |s.lanes|), e))
  {
    hide NewTuples;
    hide BucketOf;
    hide Drawn;
    var s', tuples, choices := AfterScatter(s, w, randoms), NewTuples(s, w), Choices(randoms, |s.lanes|);
    forall i | 0 <= i < |tuples|
      ensures IsTuple(s'.items, |s.items| + i, tuples[i])
    {
    }
    DrawnIsBucket(s'.items, tuples, choices, |s.items|, e);
  }

  // ---------------------------------------------------------------- the round

  lemma ForwardRound(s: System, w: nat) returns (steps: seq<Step>, s': System)
    requires Inv(s) && !s.crashed && w < |s.sinks|
    ensures |s.forwarded| == |s.sinks| == |s.inboxes|
    ensures Reaches(s, steps, s') && !s'.crashed && forall step :: step in steps ==> IsWorkerStep(step, w)
    ensures s' == s.(forwarded := s.forwarded[w := s.forwarded[w] + s.sinks[w]], sinks := s.sinks[w := []])
  {
    hide LanesOk;
    hide DatabaseOk;
    hide CrashOk;
    hide RequestsOk;
    if s.sinks[w] == [] {
      steps, s' := [], s;
      assert s.forwarded[w] + s.sinks[w] == s.forwarded[w];
      assert s.forwarded[w := s.forwarded[w]] == s.forwarded && s.sinks[w := []] == s.sinks;
    } else {
      CanForward(s, w);
      OneStep(s, Forward(w));
      steps, s' := [Forward(w)], Next(s, Forward(w));
    }
  }

  lemma ReceiveRound(s: System, w: nat, randoms: seq<nat>) returns (steps: seq<Step>, s': System)
    requires Inv(s) && !s.crashed && w < |s.inboxes| && s.lanes != []
    requires |randoms| == |NewTuples(s, w)| && s.inboxes[w] != []
    ensures Enabled(s, Receive(w, randoms)) && Inv(s')
    ensures Reaches(s, steps, s') && forall step :: step in steps ==> IsWorkerStep(step, w)
    ensures s' == AfterReceive(s, w, randoms)
  {
    hide Inv;
    hide AfterReceive;
    hide NewTuples;
    var step := Receive(w, randoms);
    assert Enabled(s, step);
    StepKeepsOrder(s, step);
    OneStep(s, step);
    steps, s' := [step], Next(s, step);
  }

  /**
   What WorkerRound is proved to leave behind is a run of the worker's own steps: the pairs of the
   parts are decoded, each executor's queue gets the bucket it drew, and the waiting replies leave.
   Where WorkerRound crashes the run does.
   */
  lemma WorkerRoundIsARun(s: System, w: nat, randoms: seq<nat>) returns (steps: seq<Step>, s': System)
    requires Inv(s) && !s.crashed && w < |s.inboxes| && s.lanes != [] && |randoms| == |NewTuples(s, w)|
    ensures |s.forwarded| == |s.sinks| == |s.inboxes|
    ensures Reaches(s, steps, s') && forall step :: step in steps ==> IsWorkerStep(step, w)
    ensures s'.crashed <==> IsMisread(s.inboxes[w])
    ensures !s'.crashed ==> Worked(s, s', w)
    ensures !s'.crashed ==>
              forall e :: 0 <= e < |s.lanes| ==>
                IsSentTo(s'.items, s.lanes[e].inbox, s'.lanes[e].inbox,
                         BucketOf(NewTuples(s, w), Choices(randoms, |s.lanes|), e))
  {
    hide Inv;
    hide NewTuples;
    hide Reaches;
    hide BucketOf;
    hide IsSentTo;
    hide Choices;
    hide AfterScatter;
    SameNumbers(s);
    if s.inboxes[w] == [] {
      NothingToRead(s, w, randoms);
      steps, s' := ForwardRound(s, w);
    } else {
      var first, s1 := ReceiveRound(s, w, randoms);
      if IsMisread(s.inboxes[w]) {
        steps, s' := first, s1;
      } else {
        ScatterKeepsTheRest(s, w, randoms);
        forall e | 0 <= e < |s.lanes|
          ensures IsSentTo(s1.items, s.lanes[e].inbox, s1.lanes[e].inbox,
                           BucketOf(NewTuples(s, w), Choices(randoms, |s.lanes|), e))
        {
          ScatterSends(s, w, randoms, e);
        }
        var second;
        second, s' := ForwardRound(s1, w);
        ReachesOn(s, first, s1, second, s');
        steps := first + second;
      }
    }
  }

  lemma SameNumbers(s: System)
    requires Inv(s)
    ensures |s.forwarded| == |s.sinks| == |s.inboxes|
  {
    hide LanesOk;
    hide DatabaseOk;
    hide CrashOk;
    hide RequestsOk;
  }

  lemma NothingToRead(s: System, w: nat, randoms: seq<nat>)
    requires w < |s.inboxes| && s.inboxes[w] == [] && s.lanes != [] && |randoms| == |NewTuples(s, w)|
    ensures !IsMisread(s.inboxes[w]) && PairsOf(s.inboxes[w]) == [] && s.received + [] == s.received
    ensures forall e :: 0 <= e < |s.lanes| ==>
              IsSentTo(s.items, s.lanes[e].inbox, s.lanes[e].inbox,
                       BucketOf(NewTuples(s, w), Choices(randoms, |s.lanes|), e))
  {
    assert NewTuples(s, w) == [];
  }

  lemma ScatterKeepsTheRest(s: System, w: nat, randoms: seq<nat>)
    requires Enabled(s, Receive(w, randoms))
    ensures var s' := AfterScatter(s, w, randoms);
            && s'.inboxes == s.inboxes[w := []] && s'.received == s.received + PairsOf(s.inboxes[w])
            && s'.sinks == s.sinks && s'.forwarded == s.forwarded && |s'.lanes| == |s.lanes|
            && s'.crashed == s.crashed
  {
    hide NewTuples;
  }
}
