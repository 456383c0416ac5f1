/**
 When a tuple crashes its executor (NDBMessageExecutor.cpp): `store_info` is a repeated field that a
 set, get or delete need not have, and the code reads its first element; a filtered scan dereferences
 the column the dictionary gives it, and gets null for one that the table does not have.
 */
module TupleCrashes {
  import opened Wrappers
  import opened Wire
  import opened ColumnCodec
  import opened OperationCodec
  import opened FrameCodec
  import opened Messages
  import opened NdbTables
  import opened TupleRuns
  import GetPlanning

  /** What is wrong with a message that crashes the executor. */
  ghost predicate IsBroken(m: Message, a: Answer) {
    m.IsManipulation() && (!IsAddressed(m) || PlanFor(m, a) == GetPlanning.Crashed)
  }

  /** Whether some table takes the operation: its key columns differ, and its values are for others. */
  predicate IsAcceptable(m: Message) {
    match m
    case Set(o) =>
      && Distinct(GetPlanning.BoundNames(o.primaryKey))
      && forall v :: v in o.value ==> NameOf(v) !in GetPlanning.BoundNames(o.primaryKey)
    case Delete(o) => Distinct(GetPlanning.BoundNames(o.primaryKey))
    case Get(_) => true
    case _ => false
  }

  /** Definitions and acceptable operations; any other message makes the executor leave the loop. */
  predicate CanPass(m: Message) { m.IsDefinition() || IsAcceptable(m) }

  lemma AcceptedIsAcceptable(m: Message, a: Answer)
    requires PlanFor(m, a) == GetPlanning.Accepted
    ensures IsAcceptable(m) && m.IsManipulation()
  {
    if m.Set? {
      var o := m.operation;
      forall v | v in o.value
        ensures NameOf(v) !in GetPlanning.BoundNames(o.primaryKey)
      {
        assert GetPlanning.IsSettable(a.info.value, v);
        assert forall k :: 0 <= k < |o.primaryKey| ==> o.primaryKey[k] in o.primaryKey;
      }
    }
  }

  /** A run that goes on has processed requests with a store only, one that crashed has met a broken one. */
  lemma {:induction false} WhatWasProcessed(id: Bytes, ms: seq<Message>, answers: seq<Answer>)
    requires |answers| == |ms|
    ensures var s := Run(id, ms, answers);
            && s.processed <= |ms|
            && (forall k :: 0 <= k < s.processed ==> IsAddressed(ms[k]) && (!s.stopped ==> CanPass(ms[k])))
            && (!s.IsOver() ==> s.processed == |ms|)
            && (s.stopped ==> forall k :: 0 <= k < s.processed - 1 ==> CanPass(ms[k]))
            && (s.crashed ==> !s.stopped && s.processed < |ms| && IsBroken(ms[s.processed], answers[s.processed]))
  {
    hide RefusalText;
    hide DefinitionResult;
    hide PlanFor;
    hide IsAcceptable;
    if ms != [] {
      var last := |ms| - 1;
      WhatWasProcessed(id, ms[..last], answers[..last]);
      if PlanFor(ms[last], answers[last]) == GetPlanning.Accepted {
        AcceptedIsAcceptable(ms[last], answers[last]);
      }
    }
  }

  /**
   A run comes to its end, through all messages or up to one that is refused, exactly when it is not
   cut short; and every set, get and delete it has processed has a store.
   */
  lemma EndsUnlessCrashed(id: Bytes, ms: seq<Message>, answers: seq<Answer>)
    requires |answers| == |ms|
    ensures var s := Run(id, ms, answers);
            && (!s.crashed <==> s.stopped || s.processed == |ms|)
            && (s.crashed <==> s.processed < |ms| && !s.stopped)
            && forall k :: 0 <= k < s.processed && k < |ms| ==> IsAddressed(ms[k])
  {
    WhatWasProcessed(id, ms, answers);
  }

  // ---------------------------------------------------------------- which tuples can crash

  /** Before an operation without a store there is a message that ends the loop in any case. */
  ghost predicate IsSafe(ms: seq<Message>) {
    forall k :: 0 <= k < |ms| && !IsAddressed(ms[k]) ==> exists j :: 0 <= j < k && !CanPass(ms[j])
  }

  /** No filtered scan names a column that its table does not have. */
  ghost predicate KnowsColumns(ms: seq<Message>, answers: seq<Answer>)
    requires |answers| == |ms|
  {
    forall k :: 0 <= k < |ms| ==> ColumnsAreKnown(ms[k], answers[k])
  }

  ghost predicate ColumnsAreKnown(m: Message, a: Answer) {
    m.Get? && a.info.Some? && GetPlanning.AccessFor(m.operation, a.info.value) == GetPlanning.ByScan ==>
      forall c :: c in m.operation.value ==> GetPlanning.IsKnown(a.info.value, c)
  }

  lemma SafeRunsDoNotCrash(id: Bytes, ms: seq<Message>, answers: seq<Answer>)
    requires |answers| == |ms| && IsSafe(ms) && KnowsColumns(ms, answers)
    ensures !Run(id, ms, answers).crashed
  {
    hide Run;
    var s := Run(id, ms, answers);
    WhatWasProcessed(id, ms, answers);
    forall k | 0 <= k < |ms| && IsBroken(ms[k], answers[k])
      ensures !IsAddressed(ms[k])
    {
      assert ColumnsAreKnown(ms[k], answers[k]);
    }
  }

  // ---------------------------------------------------------------- answers that lead there

  function ColumnFor(c: ColumnValue, isKey: bool): ColumnDef { ColumnDef(NameOf(c), 0, isKey, false) }

  function ColumnsFor(cs: seq<ColumnValue>, isKey: bool): (columns: seq<ColumnDef>)
    ensures |columns| == |cs|
  {
    seq(|cs|, i requires 0 <= i < |cs| => ColumnFor(cs[i], isKey))
  }

  /** A table with the columns the operation names: those of its key, unless it is a GET, and its values'. */
  function TableFor(m: Message): TableInfo
    requires m.IsManipulation()
  {
    TableInfo(ColumnsFor(if m.Get? then [] else m.operation.primaryKey, true) + ColumnsFor(m.operation.value, false))
  }

  /** An answer that lets every acceptable operation with a store pass. */
  function WelcomeTo(m: Message): Answer {
    Answer(None, true, true, Some(if m.IsManipulation() then TableFor(m) else TableInfo([])),
           GetPlanning.NdbAnswers(true, true, None, true, true), NdbError(0, []))
  }

  function Welcome(ms: seq<Message>): (answers: seq<Answer>)
    ensures |answers| == |ms|
  {
    seq(|ms|, i requires 0 <= i < |ms| => WelcomeTo(ms[i]))
  }

  lemma {:induction false} KeysSelected(cs: seq<ColumnValue>, isKey: bool)
    ensures Select(ColumnsFor(cs, isKey), (c: ColumnDef) => c.isPrimaryKey)
            == if isKey then ColumnsFor(cs, isKey) else []
  {
    if cs != [] {
      var last := |cs| - 1;
      assert ColumnsFor(cs, isKey)[..last] == ColumnsFor(cs[..last], isKey);
      KeysSelected(cs[..last], isKey);
    }
  }

  /** Its key columns are those of the operation, in order. */
  lemma TableForHasKeys(m: Message)
    requires m.IsManipulation()
    ensures TableFor(m).PrimaryKeys() == if m.Get? then [] else GetPlanning.BoundNames(m.operation.primaryKey)
  {
    hide Select;
    var keys := if m.Get? then [] else m.operation.primaryKey;
    var columns := ColumnsFor(keys, true);
    SelectConcat(columns, ColumnsFor(m.operation.value, false), (c: ColumnDef) => c.isPrimaryKey);
    KeysSelected(keys, true);
    KeysSelected(m.operation.value, false);
    assert columns + [] == columns;
    assert Names(columns) == GetPlanning.BoundNames(keys);
  }

  lemma TableForHasValues(m: Message)
    requires m.IsManipulation()
    ensures forall v :: v in m.operation.value ==> NameOf(v) in TableFor(m).ColumnNames()
  {
    var keys := if m.Get? then [] else m.operation.primaryKey;
    forall v | v in m.operation.value
      ensures NameOf(v) in TableFor(m).ColumnNames()
    {
      var i :| 0 <= i < |m.operation.value| && m.operation.value[i] == v;
      assert TableFor(m).ColumnNames()[|keys| + i] == NameOf(v);
    }
  }

  lemma WelcomeIsAccepted(m: Message)
    requires IsAcceptable(m)
    ensures PlanFor(m, WelcomeTo(m)) == GetPlanning.Accepted && ColumnsAreKnown(m, WelcomeTo(m))
  {
    hide TableFor;
    TableForHasKeys(m);
    TableForHasValues(m);
    var names := GetPlanning.BoundNames(m.operation.primaryKey);
    forall b | b in m.operation.primaryKey
      ensures NameOf(b) in names
    {
      var k :| 0 <= k < |m.operation.primaryKey| && m.operation.primaryKey[k] == b;
      assert names[k] == NameOf(b);
    }
  }

  lemma WelcomedStep(id: Bytes, s: RunState, m: Message)
    requires !s.IsOver()
    ensures var s' := TakeMessage(id, s, m, WelcomeTo(m));
            s'.stopped ==> !CanPass(m) && s'.processed == s.processed + 1
  {
    hide RefusalText;
    hide DefinitionResult;
    hide PlanFor;
    hide WelcomeTo;
    hide IsAcceptable;
    if CanPass(m) && !m.IsDefinition() {
      WelcomeIsAccepted(m);
      AcceptedIsAcceptable(m, WelcomeTo(m));
      WelcomeStarts(m);
    }
  }

  /** So answered, a run is only refused at a message that cannot pass. */
  lemma {:induction false} WelcomedRunsGoOn(id: Bytes, ms: seq<Message>, answers: seq<Answer>)
    requires |answers| == |ms| && forall k :: 0 <= k < |ms| ==> answers[k] == WelcomeTo(ms[k])
    ensures var s := Run(id, ms, answers);
            s.stopped ==> 0 < s.processed <= |ms| && !CanPass(ms[s.processed - 1])
  {
    hide TakeMessage;
    hide WelcomeTo;
    hide CanPass;
    if ms != [] {
      var last := |ms| - 1;
      var before := Run(id, ms[..last], answers[..last]);
      WelcomedRunsGoOn(id, ms[..last], answers[..last]);
      WhatWasProcessed(id, ms[..last], answers[..last]);
      if before.IsOver() {
        assert before.stopped ==> ms[..last][before.processed - 1] == ms[before.processed - 1];
      } else {
        WelcomedStep(id, before, ms[last]);
      }
    }
  }

  lemma WelcomeStarts(m: Message)
    ensures WelcomeTo(m).starts
  {
  }

  lemma WelcomeCrashes(id: Bytes, ms: seq<Message>, k: nat)
    requires k < |ms| && !IsAddressed(ms[k]) && forall j :: 0 <= j < k ==> CanPass(ms[j])
    ensures Run(id, ms, Welcome(ms)).crashed
  {
    hide Run;
    hide WelcomeTo;
    var answers := Welcome(ms);
    WelcomedRunsGoOn(id, ms[..k], answers[..k]);
    RunStep(id, ms, answers, k);
    if Run(id, ms[..k], answers[..k]).crashed {
      OverStays(id, ms, answers, k);
    } else {
      OverStays(id, ms, answers, k + 1);
    }
  }

  /**
   Which tuples can crash an executor, seen from the request alone: some answers do it, even when
   every table has the columns that are asked for, exactly when an operation without a store comes
   before any message that ends the loop.
   */
  lemma CrashesExactlyWhenUnsafe(id: Bytes, ms: seq<Message>)
    ensures (exists answers ::
               |answers| == |ms| && KnowsColumns(ms, answers) && Run(id, ms, answers).crashed) <==> !IsSafe(ms)
  {
    hide Run;
    hide ColumnsAreKnown;
    if !IsSafe(ms) {
      var k :| 0 <= k < |ms| && !IsAddressed(ms[k]) && forall j :: 0 <= j < k ==> CanPass(ms[j]);
      WelcomeCrashes(id, ms, k);
      forall i | 0 <= i < |ms|
        ensures ColumnsAreKnown(ms[i], Welcome(ms)[i])
      {
        WelcomeKnowsColumns(ms[i]);
      }
    } else if answers :| |answers| == |ms| && KnowsColumns(ms, answers) && Run(id, ms, answers).crashed {
      SafeRunsDoNotCrash(id, ms, answers);
    }
  }

  lemma WelcomeKnowsColumns(m: Message)
    ensures ColumnsAreKnown(m, WelcomeTo(m))
  {
    if m.Get? {
      WelcomeIsAccepted(m);
    }
  }

  /** A set operation without any bytes parses, and crashes the executor whatever it is answered. */
  lemma EmptySetCrashes(id: Bytes, a: Answer)
    ensures DecodePayload(SET, []) == Some(Set(NO_MANIPULATION))
    ensures Run(id, [Set(NO_MANIPULATION)], [a]).crashed
  {
    hide DecodePayload;
    hide DefinitionResult;
    hide RefusalText;
    var m := Set(NO_MANIPULATION);
    assert NO_MANIPULATION.Bytes() == [];
    PayloadRoundTrip(m);
    assert [m][..0] == [] && [a][..0] == [];
  }
}
