/**
 From a client's call to the Results its delegate receives: the pipeline between, the replies that
 the workers forward to the client in any order, and the client's decoding of them.
 */
module EndToEnd {
  import opened Wrappers
  import opened Wire
  import opened FrameCodec
  import opened Messages
  import opened ResultCodec
  import opened Transport
  import opened Requests
  import opened FrameDecoding
  import opened ClientExecution
  import opened NdbTables
  import opened TupleRuns
  import opened TupleCrashes
  import opened Execution
  import opened Pipeline
  import opened PipelinePlaces
  import opened PipelineReplies
  import opened PipelineSafety
  import opened PipelineOutcomes

  // ---------------------------------------------------------------- permutations

  lemma {:induction false} SameMultisetSplit<T>(a: seq<T>, b: seq<T>)
    requires multiset(a) == multiset(b) && a != []
    ensures exists i :: 0 <= i < |b| && b[i] == a[|a| - 1] && multiset(a[..|a| - 1]) == multiset(Without(b, i))
  {
    var last := |a| - 1;
    assert a == a[..last] + [a[last]];
    assert a[last] in multiset(a) && a[last] in b;
    var i :| 0 <= i < |b| && b[i] == a[last];
    WithoutOne(b, i);
    assert multiset(a) == multiset(a[..last]) + multiset{a[last]};
    assert multiset(a[..last]) == multiset(a) - multiset{a[last]};
    assert multiset(Without(b, i)) == multiset(b) - multiset{b[i]};
  }

  lemma SameLength<T>(a: seq<T>, b: seq<T>)
    requires multiset(a) == multiset(b)
    ensures |a| == |b|
  {
    assert |multiset(a)| == |a| && |multiset(b)| == |b|;
  }

  lemma EnvelopesWithout(identity: Bytes, xs: seq<Result>, i: nat)
    requires i < |xs|
    ensures Without(ReplyEnvelopes(identity, xs), i) == ReplyEnvelopes(identity, Without(xs, i))
  {
    hide ReplyEnvelope;
  }

  lemma PutBack<T>(before: seq<T>, xs: seq<T>, i: nat)
    requires i < |xs| && multiset(before) == multiset(Without(xs, i))
    ensures multiset(before + [xs[i]]) == multiset(xs)
  {
    WithoutOne(xs, i);
  }

  /** Envelopes that are those of some Results in another order are those of the Results in another order. */
  lemma {:induction false} ArrivedAreReplies(arrived: seq<Envelope>, identity: Bytes, xs: seq<Result>)
    returns (rs: seq<Result>)
    requires multiset(arrived) == multiset(ReplyEnvelopes(identity, xs))
    ensures arrived == ReplyEnvelopes(identity, rs) && multiset(rs) == multiset(xs)
    decreases |arrived|
  {
    hide ReplyEnvelope;
    hide Without;
    SameLength(arrived, ReplyEnvelopes(identity, xs));
    if arrived == [] {
      rs := [];
    } else {
      var last := |arrived| - 1;
      var es := ReplyEnvelopes(identity, xs);
      SameMultisetSplit(arrived, es);
      var i :| 0 <= i < |es| && es[i] == arrived[last] && multiset(arrived[..last]) == multiset(Without(es, i));
      EnvelopesWithout(identity, xs, i);
      var before := ArrivedAreReplies(arrived[..last], identity, Without(xs, i));
      rs := before + [xs[i]];
      PutBack(before, xs, i);
      EnvelopesConcat(identity, before, [xs[i]]);
      assert ReplyEnvelopes(identity, [xs[i]]) == [es[i]];
      assert arrived == arrived[..last] + [arrived[last]];
    }
  }

  // ---------------------------------------------------------------- the replies to one client

  function To(es: seq<Envelope>, identity: Bytes): seq<Envelope> {
    Select(es, (e: Envelope) => e.identity == identity)
  }

  function Envelopes(log: seq<Reply>): (es: seq<Envelope>)
    ensures |es| == |log|
  {
    seq(|log|, i requires 0 <= i < |log| => log[i].envelope)
  }

  lemma ToSnoc(log: seq<Reply>, r: Reply, identity: Bytes)
    ensures To(Envelopes(log + [r]), identity)
            == To(Envelopes(log), identity) + if r.envelope.identity == identity then [r.envelope] else []
  {
    assert Envelopes(log + [r]) == Envelopes(log) + [r.envelope];
    assert (Envelopes(log) + [r.envelope])[..|log|] == Envelopes(log);
  }

  /** The replies to the client's tuples among the first n, tuple by tuple. */
  function ByTicket(log: seq<Reply>, items: seq<Item>, identity: Bytes, n: nat): seq<Envelope>
    requires n <= |items|
  {
    if n == 0 then []
    else
      ByTicket(log, items, identity, n - 1) + TheirReplies(log, items, identity, n - 1)
  }

  function TheirReplies(log: seq<Reply>, items: seq<Item>, identity: Bytes, t: nat): seq<Envelope>
    requires t < |items|
  {
    if items[t].tuple.identity == identity then RepliesTo(log, t) else []
  }

  /** The replies to the client through the first n sinks, sink by sink. */
  function BySink(log: seq<Reply>, identity: Bytes, n: nat): seq<Envelope> {
    if n == 0 then [] else BySink(log, identity, n - 1) + To(Through(log, n - 1), identity)
  }

  lemma RepliesToSnoc(log: seq<Reply>, r: Reply, t: nat)
    ensures RepliesTo(log + [r], t) == RepliesTo(log, t) + if r.ticket == t then [r.envelope] else []
    ensures Through(log + [r], t) == Through(log, t) + if r.sink == t then [r.envelope] else []
  {
    assert (log + [r])[..|log|] == log;
  }

  function OneIf(b: bool, e: Envelope): seq<Envelope> { if b then [e] else [] }

  /** Two parts that grow, of which at most one does. */
  lemma PartsGrow(a: seq<Envelope>, a': seq<Envelope>, b: seq<Envelope>, b': seq<Envelope>, x: seq<Envelope>,
                  y: seq<Envelope>, both: seq<Envelope>)
    requires multiset(a') == multiset(a) + multiset(x) && b' == b + y && both == x + y
    ensures multiset(a' + b') == multiset(a + b) + multiset(both)
  {
    var (m, n, p, q) := (multiset(a), multiset(b), multiset(x), multiset(y));
    assert multiset(a' + b') == (m + p) + (n + q);
    assert multiset(a + b) == m + n && multiset(both) == p + q;
    SumsSwap(m, n, p, q);
  }

  lemma SumsSwap<T>(m: multiset<T>, n: multiset<T>, p: multiset<T>, q: multiset<T>)
    ensures (m + p) + (n + q) == (m + n) + (p + q)
  {
  }

  lemma OneOfTwo(a: bool, b: bool, e: Envelope)
    requires !(a && b)
    ensures OneIf(a || b, e) == OneIf(a, e) + OneIf(b, e)
  {
  }

  lemma TheirRepliesSnoc(log: seq<Reply>, r: Reply, items: seq<Item>, identity: Bytes, t: nat)
    requires t < |items| && (r.ticket < |items| ==> r.envelope.identity == items[r.ticket].tuple.identity)
    ensures TheirReplies(log + [r], items, identity, t)
            == TheirReplies(log, items, identity, t)
               + OneIf(r.ticket == t && r.envelope.identity == identity, r.envelope)
  {
    hide RepliesTo;
    RepliesToSnoc(log, r, t);
  }

  lemma TheirSinkSnoc(log: seq<Reply>, r: Reply, identity: Bytes, w: nat)
    ensures To(Through(log + [r], w), identity)
            == To(Through(log, w), identity)
               + OneIf(r.sink == w && r.envelope.identity == identity, r.envelope)
  {
    hide Through;
    hide To;
    RepliesToSnoc(log, r, w);
    SelectOne(Through(log, w), r.envelope, identity);
  }

  lemma {:induction false} ByTicketSnoc(log: seq<Reply>, r: Reply, items: seq<Item>, identity: Bytes, n: nat)
    requires n <= |items| && (r.ticket < |items| ==> r.envelope.identity == items[r.ticket].tuple.identity)
    ensures multiset(ByTicket(log + [r], items, identity, n))
            == multiset(ByTicket(log, items, identity, n))
               + multiset(OneIf(r.ticket < n && r.envelope.identity == identity, r.envelope))
  {
    hide TheirReplies;
    if n > 0 {
      hide OneIf;
      ByTicketSnoc(log, r, items, identity, n - 1);
      TheirRepliesSnoc(log, r, items, identity, n - 1);
      var mine := r.envelope.identity == identity;
      var (before, here) := (r.ticket < n - 1 && mine, r.ticket == n - 1 && mine);
      OneOfTwo(before, here, r.envelope);
      PartsGrow(ByTicket(log, items, identity, n - 1), ByTicket(log + [r], items, identity, n - 1),
                TheirReplies(log, items, identity, n - 1), TheirReplies(log + [r], items, identity, n - 1),
                OneIf(before, r.envelope), OneIf(here, r.envelope), OneIf(before || here, r.envelope));
      assert before || here <==> r.ticket < n && mine;
    }
  }

  lemma {:induction false} BySinkSnoc(log: seq<Reply>, r: Reply, identity: Bytes, n: nat)
    ensures multiset(BySink(log + [r], identity, n))
            == multiset(BySink(log, identity, n))
               + multiset(OneIf(r.sink < n && r.envelope.identity == identity, r.envelope))
  {
    hide Through;
    hide To;
    if n > 0 {
      hide OneIf;
      BySinkSnoc(log, r, identity, n - 1);
      TheirSinkSnoc(log, r, identity, n - 1);
      var mine := r.envelope.identity == identity;
      var (before, here) := (r.sink < n - 1 && mine, r.sink == n - 1 && mine);
      OneOfTwo(before, here, r.envelope);
      PartsGrow(BySink(log, identity, n - 1), BySink(log + [r], identity, n - 1),
                To(Through(log, n - 1), identity), To(Through(log + [r], n - 1), identity),
                OneIf(before, r.envelope), OneIf(here, r.envelope), OneIf(before || here, r.envelope));
      assert before || here <==> r.sink < n && mine;
    }
  }

  lemma SelectOne(es: seq<Envelope>, e: Envelope, identity: Bytes)
    ensures To(es + [e], identity) == To(es, identity) + if e.identity == identity then [e] else []
    ensures es + [] == es
  {
    assert (es + [e])[..|es|] == es;
  }

  /** Counted tuple by tuple or sink by sink, the replies to a client are the same. */
  lemma {:induction false} TicketsAndSinks(log: seq<Reply>, items: seq<Item>, identity: Bytes, sinks: nat)
    requires forall r :: r in log ==>
               r.ticket < |items| && r.sink < sinks && r.envelope.identity == items[r.ticket].tuple.identity
    ensures multiset(ByTicket(log, items, identity, |items|)) == multiset(BySink(log, identity, sinks))
  {
    hide RepliesTo;
    hide Through;
    if log == [] {
      NothingLogged(items, identity, |items|, sinks);
    } else {
      var last := |log| - 1;
      var r := log[last];
      assert r in log && log == log[..last] + [r] && forall q :: q in log[..last] ==> q in log;
      TicketsAndSinks(log[..last], items, identity, sinks);
      ByTicketSnoc(log[..last], r, items, identity, |items|);
      BySinkSnoc(log[..last], r, identity, sinks);
    }
  }

  lemma NoReplies(identity: Bytes, k: nat)
    ensures RepliesTo([], k) == [] && To(Through([], k), identity) == []
  {
  }

  lemma {:induction false} NothingLogged(items: seq<Item>, identity: Bytes, n: nat, sinks: nat)
    requires n <= |items|
    ensures ByTicket([], items, identity, n) == [] && BySink([], identity, sinks) == []
  {
    hide RepliesTo;
    hide Through;
    hide To;
    if n > 0 {
      NothingLogged(items, identity, n - 1, sinks);
      NoReplies(identity, n - 1);
    } else if sinks > 0 {
      NothingLogged(items, identity, 0, sinks - 1);
      NoReplies(identity, sinks - 1);
    }
  }

  // ---------------------------------------------------------------- the Results of one client

  /** The Results a tuple has been answered so far. */
  function ResultsOf(item: Item): seq<Result> {
    var t := item.tuple;
    match item.place
    case Pending(_, _, answers) =>
      if |answers| == |t.messages| then Run(t.id, t.messages, answers).replies else []
    case Answered(answers) =>
      if |answers| == |t.messages| then Run(t.id, t.messages, answers).replies else []
    case Ended(answers, verdict, fetched) =>
      if |answers| == |t.messages| then AllReplies(t.id, Run(t.id, t.messages, answers), verdict, fetched) else []
    case Broken(answers) =>
      if |answers| == |t.messages| then Run(t.id, t.messages, answers).replies else []
    case _ => []
  }

  lemma ResultsAreReplies(item: Item)
    requires ItemOk(item)
    ensures item.replies == ReplyEnvelopes(item.tuple.identity, ResultsOf(item))
  {
    hide Run;
    hide AllReplies;
    hide ReplyEnvelope;
  }

  /** The Results of the tuples of one client, among the first n. */
  function ClientResults(items: seq<Item>, identity: Bytes, n: nat): seq<Result>
    requires n <= |items|
  {
    if n == 0 then []
    else
      ClientResults(items, identity, n - 1)
      + if items[n - 1].tuple.identity == identity then ResultsOf(items[n - 1]) else []
  }

  lemma EnvelopesConcat(identity: Bytes, a: seq<Result>, b: seq<Result>)
    ensures ReplyEnvelopes(identity, a + b) == ReplyEnvelopes(identity, a) + ReplyEnvelopes(identity, b)
  {
    hide ReplyEnvelope;
  }

  lemma {:induction false} TicketsAreResults(s: System, identity: Bytes, n: nat)
    requires RepliesOk(s) && n <= |s.items|
    ensures ByTicket(s.log, s.items, identity, n) == ReplyEnvelopes(identity, ClientResults(s.items, identity, n))
  {
    hide RepliesTo;
    hide Through;
    hide ItemOk;
    hide ResultsOf;
    hide ReplyEnvelope;
    if n > 0 {
      TicketsAreResults(s, identity, n - 1);
      var item := s.items[n - 1];
      assert item in s.items;
      ResultsAreReplies(item);
      EnvelopesConcat(identity, ClientResults(s.items, identity, n - 1),
                      if item.tuple.identity == identity then ResultsOf(item) else []);
    }
  }

  /** What the workers 0..n-1 have forwarded to the client. */
  function Forwarded(forwarded: seq<seq<Envelope>>, identity: Bytes, n: nat): seq<Envelope>
    requires n <= |forwarded|
  {
    if n == 0 then [] else Forwarded(forwarded, identity, n - 1) + To(forwarded[n - 1], identity)
  }

  lemma {:induction false} SinksAreForwarded(s: System, identity: Bytes, n: nat)
    requires RepliesOk(s) && n <= |s.sinks| && forall w :: 0 <= w < |s.sinks| ==> s.sinks[w] == []
    ensures BySink(s.log, identity, n) == Forwarded(s.forwarded, identity, n)
  {
    hide ItemOk;
    hide Through;
    hide RepliesTo;
    hide To;
    if n > 0 {
      SinksAreForwarded(s, identity, n - 1);
      assert s.forwarded[n - 1] + [] == s.forwarded[n - 1];
    }
  }

  lemma LoggedIdentities(s: System)
    requires RepliesOk(s)
    ensures forall r :: r in s.log ==>
              r.ticket < |s.items| && r.sink < |s.sinks|
              && r.envelope.identity == s.items[r.ticket].tuple.identity
  {
    hide ItemOk;
    hide RepliesTo;
    forall r | r in s.log
      ensures r.envelope.identity == s.items[r.ticket].tuple.identity
    {
      var k :| 0 <= k < |s.log| && s.log[k] == r;
      LoggedIsAReply(s.log, k);
      assert s.items[r.ticket] in s.items;
      RepliesHaveTheIdentity(s.items[r.ticket], r.envelope);
    }
  }

  function FramesOf(es: seq<Envelope>): (frames: seq<Bytes>)
    ensures |frames| == |es|
  {
    seq(|es|, i requires 0 <= i < |es| => es[i].frame)
  }

  /**
   At rest, each client's delegate has received the Results of all its tuples, each once and no others,
   in whatever order the workers' messages arrived. The Results must be ones that can be sent.
   */
  lemma EveryClientGetsItsResults(s: System, identity: Bytes, arrived: seq<Envelope>) returns (rs: seq<Result>)
    requires Reachable(s) && AtRest(s) && |s.forwarded| == |s.sinks|
    requires multiset(arrived) == multiset(Forwarded(s.forwarded, identity, |s.forwarded|))
    requires forall r :: r in ClientResults(s.items, identity, |s.items|) ==> CanBeSent(r)
    ensures Responses(FirstMessages(DecodeFrames(PROTOBUF, FramesOf(arrived)))) == rs
    ensures multiset(rs) == multiset(ClientResults(s.items, identity, |s.items|))
  {
    hide LanesOk;
    hide DatabaseOk;
    hide CrashOk;
    hide RequestsOk;
    hide RepliesOk;
    hide CanBeSent;
    hide DecodeFrames;
    hide FirstMessages;
    hide Responses;
    hide Reachable;
    hide ClientResults;
    ReachableIsInOrder(s);
    LoggedIdentities(s);
    TicketsAndSinks(s.log, s.items, identity, |s.sinks|);
    TicketsAreResults(s, identity, |s.items|);
    SinksAreForwarded(s, identity, |s.sinks|);
    var xs := ClientResults(s.items, identity, |s.items|);
    rs := ArrivedAreReplies(arrived, identity, xs);
    forall r | r in rs
      ensures CanBeSent(r)
    {
      assert r in multiset(rs) && r in multiset(xs);
    }
    assert FramesOf(arrived) == ReplyFrames(rs);
    RepliesReachTheClient(rs);
  }

  // ---------------------------------------------------------------- one call

  lemma {:induction false} TupleOfRequest(p: Parsers, es: seq<Envelope>, n: nat, tuple: TupleValue) returns (t: nat)
    requires n < |es| && tuple in DecodeFrame(p, es[n].frame, es[n].identity)
    ensures t < |DecodeEnvelopes(p, es)| && DecodeEnvelopes(p, es)[t] == tuple
  {
    hide DecodeFrame;
    var last := |es| - 1;
    var before := DecodeEnvelopes(p, es[..last]);
    if n < last {
      t := TupleOfRequest(p, es[..last], n, tuple);
    } else {
      var tuples := DecodeFrame(p, es[last].frame, es[last].identity);
      var k :| 0 <= k < |tuples| && tuples[k] == tuple;
      t := |before| + k;
    }
  }

  lemma {:induction false} ManipulationsDecode(ms: seq<Message>)
    requires forall m :: m in ms ==> m.IsManipulation()
    ensures Decodable(ms) == ms
  {
    if ms != [] {
      var last := |ms| - 1;
      assert ms[last] in ms;
      ManipulationsDecode(ms[..last]);
      assert ms == ms[..last] + [ms[last]];
    }
  }

  /** A finished tuple of operations has one Result, which names it and tells its outcome. */
  lemma OneResult(item: Item) returns (r: Result)
    requires ItemOk(item) && item.place.IsFinished()
    requires item.tuple.messages != [] && forall m :: m in item.tuple.messages ==> !m.IsDefinition()
    ensures ResultsOf(item) == [r] && r.transactionIdentifier == Some(item.tuple.id)
    ensures r.errorCode.None? <==> item.place.Ended? && item.place.verdict.Committed?
  {
    hide Run;
    hide ReplyEnvelope;
    var t, answers := item.tuple, item.place.answers;
    var verdict := if item.place.Ended? then item.place.verdict else Committed;
    var fetched := if item.place.Ended? then item.place.fetched else [];
    var run := Run(t.id, t.messages, answers);
    OpenMeansNoCrash(t.id, t.messages, answers);
    AllOrNothing(t.id, t.messages, answers, verdict, fetched, map[]);
    RepliesCarryTheId(t.id, t.messages, answers);
    assert run.replies + [] == run.replies;
    r := AllReplies(t.id, run, verdict, fetched)[0];
    assert run.replies != [] ==> run.replies[0] in run.replies;
  }

  lemma {:induction false} HasResults(items: seq<Item>, identity: Bytes, n: nat, t: nat, r: Result)
    requires t < n <= |items| && items[t].tuple.identity == identity && r in ResultsOf(items[t])
    ensures r in ClientResults(items, identity, n)
  {
    hide ResultsOf;
    if t < n - 1 {
      HasResults(items, identity, n - 1, t, r);
    }
  }

  /** The tuple of an atomic call is among the decoded ones. */
  lemma TupleOfCall(s: System, n: nat, identity: Bytes, id: Bytes, ms: seq<Message>, uuids: seq<Bytes>)
    returns (t: nat)
    requires DatabaseOk(s) && s.decoder == PROTOBUF
    requires (forall m :: m in ms ==> m.IsManipulation()) && |uuids| == |ms| && CanBeFramed(ms)
    requires |BuiltFrame(Some(id), ms, uuids).Bytes()| < TWO_31
    requires n < |s.received| && s.received[n] == Envelope(identity, BuiltFrame(Some(id), ms, uuids).Bytes())
    ensures t < |s.items| && s.items[t].tuple == TupleValue(id, identity, ms)
  {
    hide DecodeFrame;
    hide DecodeEnvelopes;
    hide DatabaseAfterEnded;
    hide BuiltFrame;
    hide CanBeFramed;
    hide Frame.Bytes;
    hide Decodable;
    AtomicBuildThenDecode(id, ms, uuids, identity);
    ManipulationsDecode(ms);
    t := TupleOfRequest(s.decoder, s.received, n, TupleValue(id, identity, ms));
    assert TuplesOf(s.items)[t] == s.items[t].tuple;
  }

  lemma RestsFinished(s: System, t: nat) returns (r: Result)
    requires Inv(s) && AtRest(s) && t < |s.items|
    requires s.items[t].tuple.messages != [] && forall m :: m in s.items[t].tuple.messages ==> m.IsManipulation()
    ensures ResultsOf(s.items[t]) == [r] && r.transactionIdentifier == Some(s.items[t].tuple.id)
    ensures r.errorCode.None? <==>
              t in s.ended && s.items[t].place.Ended? && s.items[t].place.verdict.Committed?
  {
    hide LanesOk;
    hide ItemOk;
    hide CrashOk;
    hide RequestsOk;
    hide DatabaseAfterEnded;
    hide DecodeEnvelopes;
    hide ResultsOf;
    assert s.items[t] in s.items;
    forall m | m in s.items[t].tuple.messages
      ensures !m.IsDefinition()
    {
    }
    r := OneResult(s.items[t]);
  }

  /**
   An atomic call with set, get and delete operations, from end to end: once its frame has been read
   and the pipeline is at rest, the client's delegate has received a Result that names the call and has
   no error code exactly when the call's transaction, with all its operations, was committed.
   */
  lemma AtomicCallIsAnswered(s: System, n: nat, identity: Bytes, id: Bytes, ms: seq<Message>, uuids: seq<Bytes>,
                             arrived: seq<Envelope>)
    returns (t: nat, r: Result)
    requires Reachable(s) && AtRest(s) && |s.forwarded| == |s.sinks| && s.decoder == PROTOBUF
    requires ms != [] && (forall m :: m in ms ==> m.IsManipulation()) && |uuids| == |ms| && CanBeFramed(ms)
    requires |BuiltFrame(Some(id), ms, uuids).Bytes()| < TWO_31
    requires n < |s.received| && s.received[n] == Envelope(identity, BuiltFrame(Some(id), ms, uuids).Bytes())
    requires multiset(arrived) == multiset(Forwarded(s.forwarded, identity, |s.forwarded|))
    requires forall q :: q in ClientResults(s.items, identity, |s.items|) ==> CanBeSent(q)
    ensures t < |s.items| && s.items[t].tuple == TupleValue(id, identity, ms)
    ensures r in Responses(FirstMessages(DecodeFrames(PROTOBUF, FramesOf(arrived))))
    ensures r.transactionIdentifier == Some(id)
    ensures ResultsOf(s.items[t]) == [r]
    ensures r.errorCode.None? <==>
              t in s.ended && s.items[t].place.Ended? && s.items[t].place.verdict.Committed?
  {
    hide Inv;
    hide AtRest;
    hide CanBeSent;
    hide DecodeFrames;
    hide FirstMessages;
    hide Responses;
    hide Reachable;
    hide ClientResults;
    hide ResultsOf;
    hide BuiltFrame;
    hide CanBeFramed;
    hide Frame.Bytes;
    hide Forwarded;
    ReachableIsInOrder(s);
    InOrderDatabase(s);
    t := TupleOfCall(s, n, identity, id, ms, uuids);
    r := RestsFinished(s, t);
    HasResults(s.items, identity, |s.items|, t, r);
    var rs := EveryClientGetsItsResults(s, identity, arrived);
    assert r in multiset(ClientResults(s.items, identity, |s.items|)) && r in multiset(rs);
  }

  lemma InOrderDatabase(s: System)
    requires Inv(s)
    ensures DatabaseOk(s)
  {
    hide DatabaseOk;
  }
}
