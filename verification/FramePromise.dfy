/**
 The promise of atomic frames, that all operations are added or none (FrameDecoder.cpp,
 NDBMessageExecutor.cpp): which received frames keep it. The decoder leaves out items that it cannot
 parse, and the executor carries out definitions one by one, so not all frames do.
 */
module FramePromises {
  import opened Wrappers
  import opened Wire
  import opened FrameCodec
  import opened OperationCodec
  import opened Messages
  import opened ResultCodec
  import opened Transport
  import opened FrameDecoding
  import opened NdbTables
  import opened TableCreation
  import opened TupleRuns
  import opened TupleCrashes

  // ---------------------------------------------------------------- what becomes of each item

  /** The tuple of an atomic frame with these items. */
  function MessagesOf(items: seq<FrameItem>): seq<Message> { DecodedMessages(PROTOBUF, items) }

  predicate Decodes(item: FrameItem) { DecodeItem(item) != [] }

  /** Whether message j took effect: a definition when its query succeeded, the others with the commit. */
  ghost predicate TookEffect(id: Bytes, ms: seq<Message>, answers: seq<Answer>, verdict: Verdict, j: nat)
    requires |answers| == |ms| && j < |ms|
  {
    var s := Run(id, ms, answers);
    if ms[j].IsDefinition() then j < s.processed && DefinitionResult(id, ms[j], answers[j]).errorCode.None?
    else s.open && verdict.Committed?
  }

  /** An item takes effect as its message does; one that does not decode has none. */
  ghost predicate ItemTookEffect(id: Bytes, items: seq<FrameItem>, answers: seq<Answer>, verdict: Verdict, i: nat)
    requires |answers| == |MessagesOf(items)| && i < |items|
  {
    var j := |MessagesOf(items[..i])|;
    Decodes(items[i]) && j < |answers| && TookEffect(id, MessagesOf(items), answers, verdict, j)
  }

  /** The run ends with one reply, and that says whether all items took effect or none. */
  ghost predicate IsAllOrNone(id: Bytes, items: seq<FrameItem>, answers: seq<Answer>, verdict: Verdict,
                              fetched: seq<seq<Row>>)
    requires |answers| == |MessagesOf(items)|
  {
    var s := Run(id, MessagesOf(items), answers);
    var replies := AllReplies(id, s, verdict, fetched);
    && !s.crashed && |replies| == 1
    && forall i :: 0 <= i < |items| ==>
         (ItemTookEffect(id, items, answers, verdict, i) <==> replies[0].errorCode.None?)
  }

  /** Whatever is answered, provided that the tables have the columns that are asked for. */
  ghost predicate KeepsPromise(id: Bytes, items: seq<FrameItem>) {
    forall answers, verdict, fetched ::
      |answers| == |MessagesOf(items)| && KnowsColumns(MessagesOf(items), answers) ==>
        IsAllOrNone(id, items, answers, verdict, fetched)
  }

  // ---------------------------------------------------------------- what can be read off the frame

  predicate IsWhole(items: seq<FrameItem>) { forall item :: item in items ==> Decodes(item) }

  predicate HasDefinition(ms: seq<Message>) { exists m :: m in ms && m.IsDefinition() }

  /** A message that is always refused comes before any definition. */
  ghost predicate IsRefusedAsAWhole(ms: seq<Message>) {
    exists k :: 0 <= k < |ms| && !CanPass(ms[k]) && !HasDefinition(ms[..k])
  }

  /** A new store without key columns, which is always refused. */
  predicate IsKeyless(m: Message) {
    m.CreateStore? && (TableOf(m.definition).primaryKey == [] || TableOf(m.definition).partitioning == [])
  }

  /**
   Nothing in it crashes the executor, and it is either refused as a whole, or it is a definition by
   itself or operations only, and no item is lost. A lost item does no harm beside a hopeless one.
   */
  ghost predicate CanBeAtomic(items: seq<FrameItem>) {
    var ms := MessagesOf(items);
    && IsSafe(ms)
    && (|| IsRefusedAsAWhole(ms)
        || (&& ms != [] && (forall m :: m in ms ==> CanPass(m))
            && (HasDefinition(ms) ==> |ms| == 1)
            && (IsWhole(items) || IsKeyless(ms[0]))))
  }

  // ---------------------------------------------------------------- items and messages

  lemma OneMoreItem(items: seq<FrameItem>, item: FrameItem)
    ensures MessagesOf(items + [item]) == MessagesOf(items) + DecodeItem(item)
  {
    hide DecodeItem;
    assert (items + [item])[..|items|] == items;
  }

  lemma OneOrNone(item: FrameItem)
    ensures |DecodeItem(item)| == if Decodes(item) then 1 else 0
  {
  }

  lemma {:induction false} WholeMessages(items: seq<FrameItem>)
    requires IsWhole(items)
    ensures |MessagesOf(items)| == |items|
  {
    hide DecodeItem;
    if items != [] {
      hide MessagesOf;
      hide Decodes;
      var last := |items| - 1;
      assert items[last] in items && forall item :: item in items[..last] ==> item in items;
      WholeMessages(items[..last]);
      OneMoreItem(items[..last], items[last]);
      OneOrNone(items[last]);
      assert items == items[..last] + [items[last]];
    }
  }

  /** In a whole frame item i is message i. */
  lemma WholeItem(items: seq<FrameItem>, i: nat)
    requires IsWhole(items) && i < |items|
    ensures |MessagesOf(items[..i])| == i < |MessagesOf(items)|
  {
    assert forall item :: item in items[..i] ==> item in items;
    WholeMessages(items);
    WholeMessages(items[..i]);
  }

  // ---------------------------------------------------------------- frames that keep the promise

  lemma NoDefinitions(ms: seq<Message>)
    requires !HasDefinition(ms)
    ensures NumDefinitions(ms) == 0 && Operations(ms) == ms
  {
    PureOperations(ms);
  }

  lemma RefusedKeeps(id: Bytes, items: seq<FrameItem>, answers: seq<Answer>, verdict: Verdict, fetched: seq<seq<Row>>)
    requires |answers| == |MessagesOf(items)| && KnowsColumns(MessagesOf(items), answers)
    requires IsSafe(MessagesOf(items)) && IsRefusedAsAWhole(MessagesOf(items))
    ensures IsAllOrNone(id, items, answers, verdict, fetched)
  {
    hide Run;
    hide DefinitionResult;
    hide CallbackReply;
    hide MessagesOf;
    hide CanPass;
    hide NumDefinitions;
    hide Operations;
    hide IsSafe;
    hide KnowsColumns;
    var ms := MessagesOf(items);
    var s := Run(id, ms, answers);
    SafeRunsDoNotCrash(id, ms, answers);
    WhatWasProcessed(id, ms, answers);
    RunsWell(id, ms, answers);
    var k :| 0 <= k < |ms| && !CanPass(ms[k]) && !HasDefinition(ms[..k]);
    assert s.stopped && s.processed - 1 <= k;
    forall m | m in ms[..s.processed]
      ensures !m.IsDefinition()
    {
      var j :| 0 <= j < s.processed && ms[..s.processed][j] == m;
      assert j < s.processed - 1 ==> m == ms[..k][j] && m in ms[..k];
    }
    NoDefinitions(ms[..s.processed]);
    assert s.replies + [] == s.replies;
    forall i | 0 <= i < |items|
      ensures !ItemTookEffect(id, items, answers, verdict, i)
    {
      var j := |MessagesOf(items[..i])|;
      assert j < s.processed ==> ms[..s.processed][j] == ms[j];
    }
  }

  lemma OperationsKeep(id: Bytes, items: seq<FrameItem>, answers: seq<Answer>, verdict: Verdict,
                       fetched: seq<seq<Row>>)
    requires |answers| == |MessagesOf(items)| && !Run(id, MessagesOf(items), answers).crashed
    requires items != [] && IsWhole(items) && !HasDefinition(MessagesOf(items))
    ensures IsAllOrNone(id, items, answers, verdict, fetched)
  {
    hide Run;
    hide MessagesOf;
    hide CallbackReply;
    hide DefinitionResult;
    var ms := MessagesOf(items);
    WholeMessages(items);
    AllOrNothing(id, ms, answers, verdict, fetched, map[]);
    forall i | 0 <= i < |items|
      ensures ItemTookEffect(id, items, answers, verdict, i)
              <==> Run(id, ms, answers).open && verdict.Committed?
    {
      WholeItem(items, i);
      assert items[i] in items && ms[i] in ms;
    }
  }

  /** A definition by itself is carried out, and its reply says how that went. */
  lemma DefinitionRun(id: Bytes, m: Message, a: Answer)
    requires m.IsDefinition()
    ensures Run(id, [m], [a]) == RunState([DefinitionResult(id, m, a)], false, [], false, false, 1)
    ensures IsKeyless(m) ==> DefinitionResult(id, m, a).errorCode.Some?
    ensures !IsKeyless(m) ==> (DefinitionResult(id, m, a).errorCode.None? <==> a.query.None?)
  {
    hide RefusalText;
    assert [m][..0] == [] && [a][..0] == [] && [] + [DefinitionResult(id, m, a)] == [DefinitionResult(id, m, a)];
  }

  lemma DefinitionKeeps(id: Bytes, items: seq<FrameItem>, answers: seq<Answer>, verdict: Verdict,
                        fetched: seq<seq<Row>>)
    requires |answers| == |MessagesOf(items)| == 1 && MessagesOf(items)[0].IsDefinition()
    requires IsWhole(items) || IsKeyless(MessagesOf(items)[0])
    ensures IsAllOrNone(id, items, answers, verdict, fetched)
  {
    hide Run;
    hide MessagesOf;
    hide CallbackReply;
    hide DefinitionResult;
    var ms := MessagesOf(items);
    assert ms == [ms[0]] && answers == [answers[0]];
    DefinitionRun(id, ms[0], answers[0]);
    forall i | 0 <= i < |items|
      ensures ItemTookEffect(id, items, answers, verdict, i)
              <==> DefinitionResult(id, ms[0], answers[0]).errorCode.None?
    {
      if IsWhole(items) {
        WholeItem(items, i);
        assert items[i] in items;
      }
    }
  }

  lemma AtomicFramesKeep(id: Bytes, items: seq<FrameItem>)
    requires CanBeAtomic(items)
    ensures KeepsPromise(id, items)
  {
    hide Run;
    hide MessagesOf;
    hide IsAllOrNone;
    hide IsKeyless;
    hide IsSafe;
    hide KnowsColumns;
    hide CanPass;
    var ms := MessagesOf(items);
    forall answers, verdict, fetched | |answers| == |ms| && KnowsColumns(ms, answers)
      ensures IsAllOrNone(id, items, answers, verdict, fetched)
    {
      SafeRunsDoNotCrash(id, ms, answers);
      if IsRefusedAsAWhole(ms) {
        RefusedKeeps(id, items, answers, verdict, fetched);
      } else if HasDefinition(ms) {
        DefinitionKeeps(id, items, answers, verdict, fetched);
      } else {
        KeylessIsDefinition(ms[0]);
        NoItemsNoMessages(items);
        OperationsKeep(id, items, answers, verdict, fetched);
      }
    }
  }

  lemma KeylessIsDefinition(m: Message)
    ensures IsKeyless(m) ==> m.IsDefinition()
  {
  }

  lemma NoItemsNoMessages(items: seq<FrameItem>)
    requires MessagesOf(items) != []
    ensures items != []
  {
  }

  // ---------------------------------------------------------------- frames that break it

  lemma {:induction false} DefinitionsAndOperations(ms: seq<Message>)
    ensures NumDefinitions(ms) + |Operations(ms)| == |ms|
  {
    if ms != [] {
      DefinitionsAndOperations(ms[..|ms| - 1]);
    }
  }

  lemma {:induction false} CountsDefinition(ms: seq<Message>, j: nat)
    requires j < |ms| && ms[j].IsDefinition()
    ensures NumDefinitions(ms) > 0
  {
    var last := |ms| - 1;
    if j < last {
      CountsDefinition(ms[..last], j);
    }
  }

  /** Answers that let everything pass that can. */
  lemma WelcomedRun(id: Bytes, ms: seq<Message>)
    requires IsSafe(ms)
    ensures KnowsColumns(ms, Welcome(ms))
    ensures var s := Run(id, ms, Welcome(ms));
            && !s.crashed && s.processed <= |ms|
            && (s.stopped ==> s.processed > 0 && !CanPass(ms[s.processed - 1]))
            && (!s.stopped ==> s.processed == |ms| && forall m :: m in ms ==> CanPass(m))
  {
    hide Run;
    hide IsSafe;
    hide CanPass;
    hide WelcomeTo;
    hide ColumnsAreKnown;
    var answers := Welcome(ms);
    forall k | 0 <= k < |ms|
      ensures ColumnsAreKnown(ms[k], answers[k])
    {
      WelcomeKnowsColumns(ms[k]);
    }
    SafeRunsDoNotCrash(id, ms, answers);
    WelcomedRunsGoOn(id, ms, answers);
    WhatWasProcessed(id, ms, answers);
  }

  /** A definition and then a message that is always refused: two replies. */
  lemma RefusedLateBreaks(id: Bytes, items: seq<FrameItem>)
    requires IsSafe(MessagesOf(items)) && !IsRefusedAsAWhole(MessagesOf(items))
    requires exists m :: m in MessagesOf(items) && !CanPass(m)
    ensures !KeepsPromise(id, items)
  {
    hide Run;
    hide MessagesOf;
    hide CanPass;
    hide IsSafe;
    hide KnowsColumns;
    hide CallbackReply;
    hide ItemTookEffect;
    var ms := MessagesOf(items);
    var answers := Welcome(ms);
    var s := Run(id, ms, answers);
    WelcomedRun(id, ms);
    RunsWell(id, ms, answers);
    var k := s.processed - 1;
    assert s.stopped;
    var m :| m in ms[..k] && m.IsDefinition();
    var j :| 0 <= j < k && ms[..k][j] == m;
    CountsDefinition(ms[..s.processed], j);
    assert s.replies + [] == s.replies;
    assert !IsAllOrNone(id, items, answers, Committed, []);
  }

  lemma WelcomedReplies(id: Bytes, ms: seq<Message>)
    requires IsSafe(ms) && forall m :: m in ms ==> CanPass(m)
    ensures KnowsColumns(ms, Welcome(ms))
    ensures var s := Run(id, ms, Welcome(ms));
            && !s.crashed && (s.open <==> Operations(ms) != [])
            && |AllReplies(id, s, Committed, [])| == ExpectedReplies(ms)
  {
    hide Run;
    hide IsSafe;
    hide KnowsColumns;
    hide CanPass;
    hide CallbackReply;
    var s := Run(id, ms, Welcome(ms));
    WelcomedRun(id, ms);
    RunsWell(id, ms, Welcome(ms));
    ReplyCount(id, ms, Welcome(ms));
    forall k | 0 <= k < |ms|
      ensures CanPass(ms[k])
    {
      assert ms[k] in ms;
    }
    assert ms[..|ms|] == ms;
  }

  /** No message at all, or a definition beside another message: not one reply. */
  lemma MixedBreaks(id: Bytes, items: seq<FrameItem>)
    requires IsSafe(MessagesOf(items)) && forall m :: m in MessagesOf(items) ==> CanPass(m)
    requires MessagesOf(items) == [] || (HasDefinition(MessagesOf(items)) && |MessagesOf(items)| > 1)
    ensures !KeepsPromise(id, items)
  {
    hide Run;
    hide MessagesOf;
    hide CanPass;
    hide IsSafe;
    hide KnowsColumns;
    hide AllReplies;
    hide ItemTookEffect;
    var ms := MessagesOf(items);
    WelcomedReplies(id, ms);
    if ms != [] {
      var m :| m in ms && m.IsDefinition();
      var j :| 0 <= j < |ms| && ms[j] == m;
      CountsDefinition(ms, j);
      DefinitionsAndOperations(ms);
    }
    assert !IsAllOrNone(id, items, Welcome(ms), Committed, []);
  }

  /** A lost item beside messages that pass: the reply says that all went well. */
  lemma LossBreaks(id: Bytes, items: seq<FrameItem>)
    requires IsSafe(MessagesOf(items)) && forall m :: m in MessagesOf(items) ==> CanPass(m)
    requires MessagesOf(items) != [] && (HasDefinition(MessagesOf(items)) ==> |MessagesOf(items)| == 1)
    requires !IsWhole(items) && !IsKeyless(MessagesOf(items)[0])
    ensures !KeepsPromise(id, items)
  {
    hide Run;
    hide MessagesOf;
    hide CanPass;
    hide IsSafe;
    hide KnowsColumns;
    hide CallbackReply;
    hide DefinitionResult;
    hide IsKeyless;
    var ms := MessagesOf(items);
    var answers := Welcome(ms);
    WelcomedReplies(id, ms);
    var replies := AllReplies(id, Run(id, ms, answers), Committed, []);
    if HasDefinition(ms) {
      assert ms == [ms[0]] && answers == [answers[0]];
      DefinitionRun(id, ms[0], answers[0]);
      assert replies == [DefinitionResult(id, ms[0], answers[0])];
    } else {
      NoDefinitions(ms);
      AllOrNothing(id, ms, answers, Committed, [], map[]);
    }
    assert |replies| == 1 && replies[0].errorCode.None?;
    var item :| item in items && !Decodes(item);
    var i :| 0 <= i < |items| && items[i] == item;
    assert !ItemTookEffect(id, items, answers, Committed, i);
    assert !IsAllOrNone(id, items, answers, Committed, []);
  }

  lemma UnsafeBreaks(id: Bytes, items: seq<FrameItem>)
    requires !IsSafe(MessagesOf(items))
    ensures !KeepsPromise(id, items)
  {
    hide Run;
    hide MessagesOf;
    hide IsSafe;
    hide KnowsColumns;
    hide ItemTookEffect;
    hide AllReplies;
    var ms := MessagesOf(items);
    CrashesExactlyWhenUnsafe(id, ms);
    var answers :| |answers| == |ms| && KnowsColumns(ms, answers) && Run(id, ms, answers).crashed;
    assert !IsAllOrNone(id, items, answers, Committed, []);
  }

  // ---------------------------------------------------------------- the main result

  /**
   Which received atomic frames keep the promise, seen from the frame alone: every run, whatever is
   answered, ends with one reply that says whether all items took effect or none, exactly when the
   frame can be atomic. A frame without any message gets no reply, one that can crash breaks it.
   */
  lemma PromiseIsKeptExactlyWhen(bytes: Bytes, frame: Frame, identity: Bytes)
    requires ParseFrame(bytes) == Some(frame) && frame.identifier.Some?
    ensures DecodeFrame(PROTOBUF, bytes, identity)
            == [TupleValue(frame.identifier.value, identity, MessagesOf(frame.items))]
    ensures KeepsPromise(frame.identifier.value, frame.items) <==> CanBeAtomic(frame.items)
  {
    hide Run;
    hide KeepsPromise;
    hide IsSafe;
    hide IsRefusedAsAWhole;
    hide CanPass;
    hide IsKeyless;
    var id, items := frame.identifier.value, frame.items;
    var ms := MessagesOf(items);
    if CanBeAtomic(items) {
      AtomicFramesKeep(id, items);
    } else if !IsSafe(ms) {
      UnsafeBreaks(id, items);
    } else if exists m :: m in ms && !CanPass(m) {
      RefusedLateBreaks(id, items);
    } else if ms == [] || (HasDefinition(ms) && |ms| > 1) {
      MixedBreaks(id, items);
    } else {
      LossBreaks(id, items);
    }
  }

  /** Operations with a store keep it when none of them is lost, and then the database says the same. */
  lemma WholeOperationsKeep(id: Bytes, items: seq<FrameItem>)
    requires items != [] && IsWhole(items)
    requires forall m :: m in MessagesOf(items) ==> m.IsManipulation() && IsAddressed(m)
    ensures KeepsPromise(id, items)
  {
    hide MessagesOf;
    hide KeepsPromise;
    hide CanPass;
    var ms := MessagesOf(items);
    WholeMessages(items);
    if k :| 0 <= k < |ms| && !CanPass(ms[k]) {
      assert forall m :: m in ms[..k] ==> m in ms;
      assert !HasDefinition(ms[..k]) && IsRefusedAsAWhole(ms);
    }
    AtomicFramesKeep(id, items);
  }

  /** Where the promise is kept without definitions, the database has all the effects or none. */
  lemma KeptInTheDatabase(id: Bytes, items: seq<FrameItem>, answers: seq<Answer>, verdict: Verdict,
                          fetched: seq<seq<Row>>, db: Database)
    requires |answers| == |MessagesOf(items)| && !HasDefinition(MessagesOf(items))
    requires IsAllOrNone(id, items, answers, verdict, fetched)
    ensures var s := Run(id, MessagesOf(items), answers);
            var replies := AllReplies(id, s, verdict, fetched);
            && |replies| == 1
            && DatabaseAfter(db, s, verdict)
               == if replies[0].errorCode.None? then Effects(db, MessagesOf(items)) else db
  {
    hide Run;
    hide ItemTookEffect;
    hide Effects;
    hide CallbackReply;
    var ms := MessagesOf(items);
    RunsWell(id, ms, answers);
    if ms != [] {
      AllOrNothing(id, ms, answers, verdict, fetched, db);
    } else {
      PureTupleGetsOneReply(id, ms, answers);
    }
  }

  // ---------------------------------------------------------------- two frames that break it

  /** An item of type SET whose data is a lone byte 255, which no varint ends with. */
  function BadItem(): FrameItem { FrameItem(Some(SET), Some([255]), None, []) }

  lemma BadItemIsLost()
    ensures !Decodes(BadItem())
  {
    assert ReadVarint32([255]) == None;
  }

  lemma MessagesOfTwo(first: FrameItem, second: FrameItem)
    ensures MessagesOf([first, second]) == DecodeItem(first) + DecodeItem(second)
  {
    hide DecodeItem;
    OneMoreItem([], first);
    OneMoreItem([first], second);
    assert [] + [first] == [first] && [first] + [second] == [first, second];
    assert [] + DecodeItem(first) == DecodeItem(first);
  }

  /** Two sets, of which one does not parse: the other is committed, and the reply is that of success. */
  lemma HalfAFrame(id: Bytes, item: FrameItem, o: Manipulation, db: Database)
    requires DecodeItem(item) == [Set(o)] && IsAddressed(Set(o)) && CanPass(Set(o))
    ensures MessagesOf([item, BadItem()]) == [Set(o)]
    ensures !KeepsPromise(id, [item, BadItem()])
    ensures var s := Run(id, [Set(o)], Welcome([Set(o)]));
            var replies := AllReplies(id, s, Committed, []);
            |replies| == 1 && replies[0].errorCode.None? && DatabaseAfter(db, s, Committed) == Effects(db, [Set(o)])
  {
    hide Run;
    hide KeepsPromise;
    hide DecodeItem;
    hide CanPass;
    hide MessagesOf;
    hide CallbackReply;
    hide Effects;
    var items, ms := [item, BadItem()], [Set(o)];
    BadItemIsLost();
    MessagesOfTwo(item, BadItem());
    assert BadItem() in items && ms + [] == ms;
    LossBreaks(id, items);
    WelcomedReplies(id, ms);
    NoDefinitions(ms);
    AllOrNothing(id, ms, Welcome(ms), Committed, [], db);
  }

  /** A definition and an operation: the definition is answered and stays, whatever becomes of the other. */
  lemma MixedFrame(id: Bytes, items: seq<FrameItem>, d: Message, m: Message, answers: seq<Answer>, verdict: Verdict,
                   fetched: seq<seq<Row>>)
    requires MessagesOf(items) == [d, m] && d.IsDefinition() && m.IsManipulation()
    requires |answers| == 2 && !Run(id, [d, m], answers).crashed
    ensures |AllReplies(id, Run(id, [d, m], answers), verdict, fetched)| == 2
    ensures !KeepsPromise(id, items)
    ensures TookEffect(id, [d, m], answers, verdict, 0)
            <==> DefinitionResult(id, d, answers[0]).errorCode.None?
  {
    hide Run;
    hide DefinitionResult;
    hide CallbackReply;
    hide KeepsPromise;
    hide MessagesOf;
    var ms := [d, m];
    RunsWell(id, ms, answers);
    ReplyCount(id, ms, answers);
    assert ms[..2] == [] + [d] + [m];
    CountsSnoc([], d);
    CountsSnoc([d], m);
    assert d in MessagesOf(items) && HasDefinition(MessagesOf(items));
    NotOne(id, items);
  }

  lemma NotOne(id: Bytes, items: seq<FrameItem>)
    requires HasDefinition(MessagesOf(items)) && |MessagesOf(items)| == 2 && MessagesOf(items)[0].IsDefinition()
    ensures !KeepsPromise(id, items)
  {
    hide Run;
    hide KeepsPromise;
    hide MessagesOf;
    hide IsKeyless;
    var ms := MessagesOf(items);
    if !IsSafe(ms) {
      UnsafeBreaks(id, items);
    } else if exists m :: m in ms && !CanPass(m) {
      forall k | 0 <= k < |ms| && !CanPass(ms[k])
        ensures HasDefinition(ms[..k])
      {
        assert ms[0] in ms[..k];
      }
      RefusedLateBreaks(id, items);
    } else {
      MixedBreaks(id, items);
    }
  }
}
