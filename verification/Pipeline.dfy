/**
 The transaction pipeline as a state machine (Store.cpp, ServerTransport.cpp,
 NDBMessageExecutor.cpp): workers that receive, decode and scatter requests, executors that take
 batches, execute, wait and free, and workers that forward the replies. Steps of different
 threads interleave in any order; random numbers, NDB and MySQL answer anything.
 */
module Pipeline {
  import opened Wrappers
  import opened Wire
  import opened Messages
  import opened ResultCodec
  import opened FrameDecoding
  import opened Transport
  import opened Requests
  import opened MessageProcessing
  import opened NdbTables
  import opened TupleRuns
  import opened Execution

  // ---------------------------------------------------------------- state

  /**
   Where a decoded tuple is: in an executor's queue, in its batch, in a pending commit, or finished.
   `Broken`: executing it crashed the server.
   */
  datatype Place =
    | Queued(lane: nat, address: nat)
    | Todo(lane: nat, address: nat)
    | Pending(lane: nat, address: nat, answers: seq<Answer>)
    | Answered(answers: seq<Answer>)
    | Ended(answers: seq<Answer>, verdict: Verdict, fetched: seq<seq<Row>>)
    | Broken(answers: seq<Answer>)
  {
    predicate IsHeldBy(e: nat) { (Queued? || Todo? || Pending?) && lane == e }
    predicate IsFinished() { Answered? || Ended? }
    predicate IsOut() { IsFinished() || Broken? }
  }

  /** A decoded tuple, where it is, and the replies it has had. Its index is its ticket. */
  datatype Item = Item(tuple: TupleValue, place: Place, replies: seq<Envelope>)

  /** A raw list pointer in an executor's queue, with the tuples of the list. */
  datatype Handle = Handle(address: nat, tickets: seq<nat>)

  /** An executor: queued pointers, adopted pointers, tuples to execute, pending transactions, counters. */
  datatype Lane = Lane(inbox: seq<Handle>, batch: seq<nat>, todo: seq<nat>, pending: seq<nat>,
                       total: nat, completed: nat, flushing: bool)

  const IDLE := Lane([], [], [], [], 0, 0, false)

  /** Who is to free a live list: the executor in whose queue its pointer is, or that adopted it. */
  datatype Owner = Waiting(lane: nat) | Adopted(lane: nat)

  /** A reply that was put into a sink. */
  datatype Reply = Reply(ticket: nat, sink: nat, envelope: Envelope)

  /**
   `requests` are the client messages the workers have read, `received` the pairs they made of them;
   `misread`: a worker has read past the last part.
   */
  datatype System = System(
    decoder: Parsers,
    inboxes: seq<seq<Request>>,
    requests: seq<Request>,
    received: seq<Envelope>,
    items: seq<Item>,
    lanes: seq<Lane>,
    owners: map<nat, Owner>,
    nextAddress: nat,
    log: seq<Reply>,
    sinks: seq<seq<Envelope>>,
    forwarded: seq<seq<Envelope>>,
    ended: seq<nat>,
    base: Database,
    db: Database,
    misread: bool,
    crashed: bool)

  // ---------------------------------------------------------------- steps

  datatype Step =
    | Arrive(worker: nat, request: Request)
    | Receive(worker: nat, randoms: seq<nat>)
    | Take(lane: nat, count: nat)
    | Execute(lane: nat, answers: seq<Answer>)
    | Wait(lane: nat)
    | Complete(lane: nat, k: nat, verdict: Verdict, fetched: seq<seq<Row>>)
    | FlushDone(lane: nat)
    | Finish(lane: nat)
    | Forward(worker: nat)

  function NewTuples(s: System, worker: nat): seq<TupleValue>
    requires worker < |s.inboxes|
  {
    DecodeEnvelopes(s.decoder, PairsOf(s.inboxes[worker]))
  }

  /** After a crash there are no more steps. */
  predicate Enabled(s: System, step: Step) { !s.crashed && CanDo(s, step) }

  predicate CanDo(s: System, step: Step) {
    match step
    case Arrive(w, _) => w < |s.inboxes|
    case Receive(w, randoms) => w < |s.inboxes| && s.inboxes[w] != [] && |randoms| == |NewTuples(s, w)| && s.lanes != []
    case Take(e, count) =>
      e < |s.lanes| && s.lanes[e].batch == [] && 0 < count <= |s.lanes[e].inbox| && count <= MAX_TRANSACTIONS
    case Execute(e, answers) =>
      && e < |s.lanes| && s.lanes[e].todo != [] && !s.lanes[e].flushing && s.sinks != []
      && s.lanes[e].todo[0] < |s.items| && s.items[s.lanes[e].todo[0]].place.Todo?
      && |answers| == |s.items[s.lanes[e].todo[0]].tuple.messages|
    case Wait(e) => e < |s.lanes| && s.lanes[e].todo == [] && !s.lanes[e].flushing && s.lanes[e].total > 0
    case Complete(e, k, _, _) =>
      && e < |s.lanes| && s.lanes[e].flushing && k < |s.lanes[e].pending| && s.sinks != []
      && s.lanes[e].pending[k] < |s.items| && s.items[s.lanes[e].pending[k]].place.Pending?
      && |s.items[s.lanes[e].pending[k]].place.answers| == |s.items[s.lanes[e].pending[k]].tuple.messages|
    case FlushDone(e) => e < |s.lanes| && s.lanes[e].flushing && s.lanes[e].completed == s.lanes[e].total
    case Finish(e) => e < |s.lanes| && s.lanes[e].batch != [] && s.lanes[e].todo == [] && !s.lanes[e].flushing &&
        s.lanes[e].total == 0
    case Forward(w) => w < |s.sinks| == |s.forwarded| && s.sinks[w] != []
  }

  function TicketsOf(hs: seq<Handle>): seq<nat> {
    if hs == [] then [] else hs[0].tickets + TicketsOf(hs[1..])
  }

  function AddressesOf(hs: seq<Handle>): (addresses: seq<nat>)
    ensures |addresses| == |hs| && forall i :: 0 <= i < |hs| ==> addresses[i] == hs[i].address
  {
    seq(|hs|, i requires 0 <= i < |hs| => hs[i].address)
  }

  // -------- receiving

  /** The tickets first..first+|choices| that drew executor e. */
  function Drawn(first: nat, choices: seq<nat>, e: nat): seq<nat> {
    if choices == [] then []
    else
      var last := |choices| - 1;
      Drawn(first, choices[..last], e) + if choices[last] == e then [first + last] else []
  }

  function Deliver(l: Lane, e: nat, first: nat, choices: seq<nat>, address: nat): Lane {
    var tickets := Drawn(first, choices, e);
    if tickets == [] then l else l.(inbox := l.inbox + [Handle(address + e, tickets)])
  }

  function NewItems(tuples: seq<TupleValue>, choices: seq<nat>, address: nat): seq<Item>
    requires |choices| == |tuples|
  {
    seq(|tuples|, i requires 0 <= i < |tuples| => Item(tuples[i], Queued(choices[i], address + choices[i]), []))
  }

  function NewOwners(choices: seq<nat>, address: nat, n: nat): map<nat, Owner> {
    map a: nat | address <= a < address + n && IsDrawn(choices, address, a) :: Waiting(a - address)
  }

  /** The list for executor e gets the address e places after `address`, if it is not empty. */
  predicate IsDrawn(choices: seq<nat>, address: nat, a: nat) { a >= address && (a - address) in choices }

  /** The parts are taken off the socket; an odd number of them crashes the decoder. */
  function AfterReceive(s: System, w: nat, randoms: seq<nat>): System
    requires Enabled(s, Receive(w, randoms))
  {
    if IsMisread(s.inboxes[w]) then
      s.(inboxes := s.inboxes[w := []], requests := s.requests + s.inboxes[w], misread := true, crashed := true)
    else AfterScatter(s, w, randoms)
  }

  function AfterScatter(s: System, w: nat, randoms: seq<nat>): System
    requires Enabled(s, Receive(w, randoms))
  {
    var tuples := NewTuples(s, w);
    var choices := Choices(randoms, |s.lanes|);
    s.(inboxes := s.inboxes[w := []],
       requests := s.requests + s.inboxes[w],
       received := s.received + PairsOf(s.inboxes[w]),
       items := s.items + NewItems(tuples, choices, s.nextAddress),
       lanes := seq(|s.lanes|, e requires 0 <= e < |s.lanes| => Deliver(s.lanes[e], e, |s.items|, choices,
           s.nextAddress)),
       owners := s.owners + NewOwners(choices, s.nextAddress, |s.lanes|),
       nextAddress := s.nextAddress + |s.lanes|)
  }

  // -------- taking a batch

  function Adopt(owners: map<nat, Owner>, addresses: seq<nat>, e: nat): map<nat, Owner> {
    map a | a in owners :: if a in addresses then Adopted(e) else owners[a]
  }

  function Begin(items: seq<Item>, tickets: seq<nat>): (items': seq<Item>)
    ensures |items'| == |items|
  {
    seq(|items|, t requires 0 <= t < |items| =>
      if t in tickets && items[t].place.Queued? then
          items[t].(place := Todo(items[t].place.lane, items[t].place.address))
      else items[t])
  }

  function AfterTake(s: System, e: nat, count: nat): System
    requires Enabled(s, Take(e, count))
  {
    var l := s.lanes[e];
    var taken := l.inbox[..count];
    s.(items := Begin(s.items, TicketsOf(taken)),
       owners := Adopt(s.owners, AddressesOf(taken), e),
       lanes := s.lanes[e := Lane(l.inbox[count..], AddressesOf(taken), TicketsOf(taken), [], 0, 0, false)])
  }

  // -------- executing, completing

  function SinkOf(s: System, e: nat): (w: nat)
    requires s.sinks != []
    ensures w < |s.sinks|
  {
    e % |s.sinks|
  }

  function LogEntries(t: nat, sink: nat, es: seq<Envelope>): (entries: seq<Reply>)
    ensures |entries| == |es|
  {
    seq(|es|, i requires 0 <= i < |es| => Reply(t, sink, es[i]))
  }

  /** Ticket t gets the replies `es` through the sink of executor e, and moves to `place`. */
  function WithReplies(s: System, e: nat, t: nat, es: seq<Envelope>, place: Place): System
    requires s.sinks != [] && t < |s.items|
  {
    var w := SinkOf(s, e);
    s.(items := s.items[t := Item(s.items[t].tuple, place, s.items[t].replies + es)],
       log := s.log + LogEntries(t, w, es),
       sinks := s.sinks[w := s.sinks[w] + es])
  }

  function AfterExecute(s: System, e: nat, answers: seq<Answer>): System
    requires Enabled(s, Execute(e, answers))
  {
    var l := s.lanes[e];
    var t := l.todo[0];
    var tuple := s.items[t].tuple;
    var run := Run(tuple.id, tuple.messages, answers);
    var place := if run.crashed then Broken(answers)
                 else if run.open then Pending(e, s.items[t].place.address, answers)
                 else Answered(answers);
    var total := l.total + if run.open then 1 else 0;
    WithReplies(s, e, t, ReplyEnvelopes(tuple.identity, run.replies), place)
      .(lanes := s.lanes[e := l.(todo := l.todo[1..],
                                 pending := l.pending + if run.open then [t] else [],
                                 total := total,
                                 flushing := total == MAX_TRANSACTIONS)],
        crashed := run.crashed)
  }

  function AfterComplete(s: System, e: nat, k: nat, verdict: Verdict, fetched: seq<seq<Row>>): System
    requires Enabled(s, Complete(e, k, verdict, fetched))
  {
    var l := s.lanes[e];
    var t := l.pending[k];
    var tuple := s.items[t].tuple;
    var answers := s.items[t].place.answers;
    var run := Run(tuple.id, tuple.messages, answers);
    var reply := ReplyEnvelope(tuple.identity, CallbackReply(tuple.id, run.operations, verdict, fetched));
    WithReplies(s, e, t, [reply], Ended(answers, verdict, fetched))
      .(lanes := s.lanes[e := l.(pending := l.pending[..k] + l.pending[k + 1..], completed := l.completed + 1)],
        ended := s.ended + [t],
        db := AfterCallback(s.db, run.operations, verdict))
  }

  // -------- all steps

  function Next(s: System, step: Step): System
    requires Enabled(s, step)
  {
    match step
    case Arrive(w, request) => s.(inboxes := s.inboxes[w := s.inboxes[w] + [request]])
    case Receive(w, randoms) => AfterReceive(s, w, randoms)
    case Take(e, count) => AfterTake(s, e, count)
    case Execute(e, answers) => AfterExecute(s, e, answers)
    case Wait(e) => s.(lanes := s.lanes[e := s.lanes[e].(flushing := true)])
    case Complete(e, k, verdict, fetched) => AfterComplete(s, e, k, verdict, fetched)
    case FlushDone(e) => s.(lanes := s.lanes[e := s.lanes[e].(total := 0, completed := 0, flushing := false)])
    case Finish(e) =>
      s.(owners := map a | a in s.owners && a !in s.lanes[e].batch :: s.owners[a],
         lanes := s.lanes[e := s.lanes[e].(batch := [])])
    case Forward(w) =>
      s.(forwarded := s.forwarded[w := s.forwarded[w] + s.sinks[w]], sinks := s.sinks[w := []])
  }

  function Start(decoder: Parsers, workers: nat, executors: nat, base: Database): System {
    System(decoder, seq(workers, i => []), [], [], [], seq(executors, i => IDLE), map[], 0, [],
           seq(workers, i => []), seq(workers, i => []), [], base, base, false, false)
  }

  /** Any number of workers and executors, and any run. */
  ghost predicate Reaches(s: System, steps: seq<Step>, end: System)
    decreases |steps|
  {
    if steps == [] then s == end else Enabled(s, steps[0]) && Reaches(Next(s, steps[0]), steps[1..], end)
  }

  // ---------------------------------------------------------------- invariant: places and pointers

  /** The place of tuple t if executor e holds it. */
  function Held(items: seq<Item>, t: nat, e: nat): Option<Place> {
    if t < |items| && items[t].place.IsHeldBy(e) then Some(items[t].place) else None
  }

  /** The owner of address a if it is executor e. */
  function Owned(owners: map<nat, Owner>, a: nat, e: nat): Option<Owner> {
    if a in owners && owners[a].lane == e then Some(owners[a]) else None
  }

  predicate IsQueued(p: Option<Place>) { p.Some? && p.value.Queued? }
  predicate IsTodo(p: Option<Place>) { p.Some? && p.value.Todo? }
  predicate IsPending(p: Option<Place>) { p.Some? && p.value.Pending? }

  /** The lists of executor e hold exactly the tuples that are there, each once. */
  ghost predicate HoldsItsTuples(items: seq<Item>, l: Lane, e: nat) {
    && (forall t: nat :: t in TicketsOf(l.inbox) <==> IsQueued(Held(items, t, e)))
    && (forall t: nat :: t in l.todo <==> IsTodo(Held(items, t, e)))
    && (forall t: nat :: t in l.pending <==> IsPending(Held(items, t, e)))
    && Distinct(TicketsOf(l.inbox)) && Distinct(l.todo) && Distinct(l.pending)
  }

  /** Its pointers are live and its alone. */
  ghost predicate OwnsItsLists(owners: map<nat, Owner>, l: Lane, e: nat) {
    && (forall a: nat :: a in AddressesOf(l.inbox) <==> Owned(owners, a, e) == Some(Waiting(e)))
    && (forall a: nat :: a in l.batch <==> Owned(owners, a, e) == Some(Adopted(e)))
    && Distinct(AddressesOf(l.inbox)) && Distinct(l.batch)
  }

  /** Its tuples belong to lists it owns: queued ones to queued lists, the others to adopted ones. */
  ghost predicate TuplesInLists(items: seq<Item>, l: Lane, e: nat) {
    && (forall h :: h in l.inbox ==> forall t :: t in h.tickets ==> Held(items, t, e) == Some(Queued(e, h.address)))
    && forall t: nat :: IsTodo(Held(items, t, e)) || IsPending(Held(items, t, e)) ==>
        Held(items, t, e).value.address in l.batch
  }

  /** The counters of the batch loop and the wait loop. */
  predicate CountsRight(l: Lane) {
    && l.completed + |l.pending| == l.total <= MAX_TRANSACTIONS
    && (!l.flushing ==> l.completed == 0 && l.total < MAX_TRANSACTIONS)
  }

  ghost predicate LaneOk(items: seq<Item>, owners: map<nat, Owner>, l: Lane, e: nat) {
    HoldsItsTuples(items, l, e) && OwnsItsLists(owners, l, e) && TuplesInLists(items, l, e) && CountsRight(l)
  }

  ghost predicate LanesOk(s: System) {
    && (forall e :: 0 <= e < |s.lanes| ==> LaneOk(s.items, s.owners, s.lanes[e], e))
    && (forall a :: a in s.owners ==> a < s.nextAddress && s.owners[a].lane < |s.lanes|)
    && forall t :: 0 <= t < |s.items| ==> s.items[t].place.IsOut() || s.items[t].place.lane < |s.lanes|
  }

  // ---------------------------------------------------------------- invariant: replies

  /** The replies a tuple has had are those its place calls for. */
  ghost predicate ItemOk(item: Item) {
    var t := item.tuple;
    match item.place
    case Queued(_, _) => item.replies == []
    case Todo(_, _) => item.replies == []
    case Pending(_, _, answers) =>
      && |answers| == |t.messages| && Run(t.id, t.messages, answers).open
      && item.replies == ReplyEnvelopes(t.identity, Run(t.id, t.messages, answers).replies)
    case Answered(answers) =>
      && |answers| == |t.messages|
      && !Run(t.id, t.messages, answers).open && !Run(t.id, t.messages, answers).crashed
      && item.replies == ReplyEnvelopes(t.identity, Run(t.id, t.messages, answers).replies)
    case Ended(answers, verdict, fetched) =>
      && |answers| == |t.messages| && Run(t.id, t.messages, answers).open
      && item.replies == ReplyEnvelopes(t.identity, AllReplies(t.id, Run(t.id, t.messages, answers), verdict, fetched))
    case Broken(answers) =>
      && |answers| == |t.messages| && Run(t.id, t.messages, answers).crashed
      && item.replies == ReplyEnvelopes(t.identity, Run(t.id, t.messages, answers).replies)
  }

  function RepliesTo(log: seq<Reply>, t: nat): seq<Envelope> {
    if log == [] then []
    else
      var last := |log| - 1;
      RepliesTo(log[..last], t) + if log[last].ticket == t then [log[last].envelope] else []
  }

  function Through(log: seq<Reply>, w: nat): seq<Envelope> {
    if log == [] then []
    else
      var last := |log| - 1;
      Through(log[..last], w) + if log[last].sink == w then [log[last].envelope] else []
  }

  /** No reply is lost, repeated or reordered between its executor and the client's worker. */
  ghost predicate RepliesOk(s: System) {
    && |s.sinks| == |s.forwarded| == |s.inboxes|
    && (forall item :: item in s.items ==> ItemOk(item))
    && (forall t :: 0 <= t < |s.items| ==> RepliesTo(s.log, t) == s.items[t].replies)
    && (forall r :: r in s.log ==> r.ticket < |s.items| && r.sink < |s.sinks|)
    && forall w :: 0 <= w < |s.sinks| ==> s.forwarded[w] + s.sinks[w] == Through(s.log, w)
  }

  // ---------------------------------------------------------------- invariant: requests and database

  function TuplesOf(items: seq<Item>): (tuples: seq<TupleValue>)
    ensures |tuples| == |items|
  {
    seq(|items|, i requires 0 <= i < |items| => items[i].tuple)
  }

  /** The transactions that ended, one after the other. */
  function DatabaseAfterEnded(base: Database, items: seq<Item>, ended: seq<nat>): Database {
    if ended == [] then base
    else
      var last := |ended| - 1;
      var before := DatabaseAfterEnded(base, items, ended[..last]);
      var t := ended[last];
      if t < |items| && items[t].place.Ended? then AfterCallback(before, Operations(items[t].tuple.messages),
          items[t].place.verdict)
      else before
  }

  ghost predicate DatabaseOk(s: System) {
    && TuplesOf(s.items) == DecodeEnvelopes(s.decoder, s.received)
    && (forall t: nat :: t in s.ended <==> t < |s.items| && s.items[t].place.Ended?)
    && Distinct(s.ended)
    && s.db == DatabaseAfterEnded(s.base, s.items, s.ended)
  }

  // ---------------------------------------------------------------- invariant: crashes

  /** The server has crashed exactly when it has executed a tuple that crashes it, or misread its parts. */
  ghost predicate CrashOk(s: System) {
    s.crashed <==> s.misread || exists item :: item in s.items && item.place.Broken?
  }

  // ---------------------------------------------------------------- invariant: client messages

  /** While every client message is one frame, the pairs are what the clients meant. */
  ghost predicate RequestsOk(s: System) {
    AreOneFrame(s.requests) ==> !s.misread && s.received == MeantEnvelopes(s.requests)
  }

  ghost predicate Inv(s: System) { LanesOk(s) && RepliesOk(s) && DatabaseOk(s) && CrashOk(s) && RequestsOk(s) }
}
