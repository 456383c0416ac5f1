/**
 What a commit does to the rows (NDBMessageExecutor.cpp): of a delete, a set, and a transaction's
 operations one after the other, and what it leaves alone.
 */
module Commits {
  import opened Wrappers
  import opened Wire
  import opened ColumnCodec
  import opened OperationCodec
  import opened Messages
  import opened ResultCodec
  import opened NdbTables
  import opened TupleRuns
  import GetPlanning

  // ---------------------------------------------------------------- what stays

  /** No table comes or goes or changes its columns, and a store that no set or delete names stays as it is. */
  lemma {:induction false} EffectsKeepTheRest(db: Database, ms: seq<Message>, store: Bytes)
    ensures store in Effects(db, ms) <==> store in db
    ensures store in db ==> Effects(db, ms)[store].info == db[store].info
    ensures store in db && (forall m :: m in ms && (m.Set? || m.Delete?) && m.operation.storeInfo != [] ==>
                              m.operation.storeInfo[0].storeName.GetOr([]) != store) ==>
              Effects(db, ms)[store] == db[store]
  {
    hide Write;
    hide Erase;
    if ms != [] {
      var last := |ms| - 1;
      EffectsKeepTheRest(db, ms[..last], store);
      assert ms[last] in ms && forall m :: m in ms[..last] ==> m in ms;
    }
  }

  /** The operations take effect one after the other. */
  lemma {:induction false} EffectsConcat(db: Database, a: seq<Message>, b: seq<Message>)
    ensures Effects(db, a + b) == Effects(Effects(db, a), b)
  {
    hide Effect;
    if b == [] {
      assert a + b == a;
    } else {
      var last := |b| - 1;
      EffectsConcat(db, a, b[..last]);
      assert (a + b)[..|a + b| - 1] == a + b[..last];
    }
  }

  lemma LastEffect(db: Database, ms: seq<Message>, m: Message)
    ensures Effects(db, ms + [m]) == Effect(Effects(db, ms), m)
  {
    hide Effect;
    assert (ms + [m])[..|ms|] == ms;
  }

  lemma OneEffect(db: Database, m: Message)
    ensures AfterCallback(db, [m], Committed) == Effect(db, m)
  {
    LastEffect(db, [], m);
    assert [] + [m] == [m];
  }

  // ---------------------------------------------------------------- a delete

  /**
   A committed delete leaves of its store exactly the rows that differ from the key in some column, each
   once and in their order, and all other tables alone.
   */
  lemma CommittedDelete(db: Database, o: Manipulation, store: Bytes) returns (indexes: seq<nat>)
    requires o.storeInfo != [] && o.storeInfo[0].storeName.GetOr([]) == store && store in db
    ensures var after := AfterCallback(db, [Delete(o)], Committed);
            && after.Keys == db.Keys && after[store].info == db[store].info
            && (forall name :: name in db && name != store ==> after[name] == db[name])
            && |indexes| == |after[store].rows|
            && (forall k :: 0 <= k < |indexes| ==>
                  indexes[k] < |db[store].rows| && db[store].rows[indexes[k]] == after[store].rows[k])
    ensures forall j, k :: 0 <= j < k < |indexes| ==> indexes[j] < indexes[k]
    ensures forall i :: 0 <= i < |db[store].rows| ==>
              var r := db[store].rows[i];
              (i in indexes
               <==> exists c :: c in o.primaryKey
                                && !(c.name.GetOr([]) in r && r[c.name.GetOr([])] == c.value.GetOr([])))
  {
    hide Erase;
    OneEffect(db, Delete(o));
    indexes := EraseIsInOrder(db[store].rows, o.primaryKey);
  }

  lemma EraseIsInOrder(rows: seq<TableRow>, key: seq<ColumnValue>) returns (indexes: seq<nat>)
    ensures Picks(rows, r => !Matches(r, key), Erase(rows, key), indexes)
  {
    hide Picks;
    indexes := SelectIsInOrder(rows, (r: TableRow) => !Matches(r, key));
  }

  // ---------------------------------------------------------------- a set

  /** The row has the key of the set and, of the values it gives for a column, the last. */
  ghost predicate IsWritten(r: TableRow, o: Manipulation) {
    && (forall c :: c in o.primaryKey ==> c.name.GetOr([]) in r && r[c.name.GetOr([])] == c.value.GetOr([]))
    && forall i :: 0 <= i < |o.value|
                   && (forall j :: i < j < |o.value| ==> o.value[j].name.GetOr([]) != o.value[i].name.GetOr([])) ==>
         o.value[i].name.GetOr([]) in r && r[o.value[i].name.GetOr([])] == o.value[i].value.GetOr([])
  }

  /** The row a set writes to: the first with the key, or else one with nothing but the key. */
  lemma {:induction false} RowBefore(rows: seq<TableRow>, key: seq<ColumnValue>)
    ensures var was := Before(rows, key);
            if exists r :: r in rows && Matches(r, key) then was in rows && Matches(was, key)
            else was == WithValues(map[], key)
  {
    if rows != [] && !Matches(rows[0], key) {
      RowBefore(rows[1..], key);
      assert forall r :: r in rows <==> r == rows[0] || r in rows[1..];
    }
  }

  /** A row of nothing but the key has the key's columns and no others. */
  lemma NewRowColumns(key: seq<ColumnValue>, name: Bytes)
    ensures name in WithValues(map[], key) <==> exists c :: c in key && c.name.GetOr([]) == name
  {
    WithValuesColumn(map[], key, name);
  }

  /**
   After a committed set there is a row with the key; of the values given for a column it has the
   last, and its other columns are those of a row with the key from before, or just the key if there was
   none. The rows with other keys and all other tables are as before.
   */
  lemma CommittedSet(db: Database, o: Manipulation, store: Bytes) returns (written: TableRow)
    requires o.storeInfo != [] && o.storeInfo[0].storeName.GetOr([]) == store && store in db
    requires IsWritable(o.primaryKey, o.value)
    ensures var after := AfterCallback(db, [Set(o)], Committed);
            && after.Keys == db.Keys && after[store].info == db[store].info
            && (forall name :: name in db && name != store ==> after[name] == db[name])
            && written in after[store].rows
            && Select(after[store].rows, r => !Matches(r, o.primaryKey))
               == Select(db[store].rows, r => !Matches(r, o.primaryKey))
    ensures IsWritten(written, o)
    ensures (exists r :: r in db[store].rows && Matches(r, o.primaryKey)) ==>
              exists was :: was in db[store].rows && Matches(was, o.primaryKey) && Updated(written, was, o.value)
    ensures !(exists r :: r in db[store].rows && Matches(r, o.primaryKey)) ==>
              forall name :: name in written ==>
                (exists c :: c in o.primaryKey && c.name.GetOr([]) == name) || IsGiven(o.value, name)
  {
    hide Write;
    hide Select;
    var rows := db[store].rows;
    OneEffect(db, Set(o));
    WriteChangesOneKey(rows, o.primaryKey, o.value);
    RowBefore(rows, o.primaryKey);
    var r :| r in Write(rows, o.primaryKey, o.value) && Matches(r, o.primaryKey)
             && Updated(r, Before(rows, o.primaryKey), o.value);
    written := r;
    forall i | 0 <= i < |o.value|
               && (forall j :: i < j < |o.value| ==> o.value[j].name.GetOr([]) != o.value[i].name.GetOr([]))
      ensures Binds(written, o.value[i])
    {
      assert IsLast(o.value, i);
    }
    forall name | name in written && !IsGiven(o.value, name)
                  && Before(rows, o.primaryKey) == WithValues(map[], o.primaryKey)
      ensures exists c :: c in o.primaryKey && c.name.GetOr([]) == name
    {
      NewRowColumns(o.primaryKey, name);
    }
  }

  // ---------------------------------------------------------------- a tuple's operations

  /** A tuple's last operation, if the loop ends with the transaction open, was accepted when it was planned. */
  lemma LastIsAccepted(id: Bytes, ms: seq<Message>, answers: seq<Answer>)
    requires |answers| == |ms| && ms != [] && !Run(id, ms, answers).IsOver() && !ms[|ms| - 1].IsDefinition()
    ensures PlanFor(ms[|ms| - 1], answers[|ms| - 1]) == GetPlanning.Accepted
  {
    hide RefusalText;
    hide PlanFor;
  }

  /** A set that was accepted says one thing of its key, and gives no key column another value. */
  lemma AcceptedIsWritable(o: Manipulation, a: Answer)
    requires PlanFor(Set(o), a) == GetPlanning.Accepted
    ensures IsWritable(o.primaryKey, o.value)
  {
    GetPlanning.AcceptedSetIsWritable(o, a.info.value, a.accepts);
  }

  /**
   When the reply to a tuple of operations lacks an error code, and the last of them is a set, its row is
   there afterwards, whatever the operations before it did.
   */
  lemma CommittedLastSet(id: Bytes, ms: seq<Message>, o: Manipulation, store: Bytes, answers: seq<Answer>,
                         verdict: Verdict, fetched: seq<seq<Row>>, db: Database)
    returns (written: TableRow)
    requires |answers| == |ms| + 1 && forall m :: m in ms ==> m.Set? || m.Get? || m.Delete?
    requires o.storeInfo != [] && o.storeInfo[0].storeName.GetOr([]) == store && store in db
    ensures var s := Run(id, ms + [Set(o)], answers);
            var replies := AllReplies(id, s, verdict, fetched);
            var after := DatabaseAfter(db, s, verdict);
            && (s.crashed ==> replies == [] && after == db)
            && (!s.crashed ==> |replies| == 1)
            && (!s.crashed && replies[0].errorCode.Some? ==> after == db)
            && (!s.crashed && replies[0].errorCode.None? ==>
                  store in after && written in after[store].rows && IsWritten(written, o))
  {
    hide Run;
    hide Effects;
    hide PlanFor;
    hide CallbackReply;
    hide IsWritable;
    hide IsWritten;
    var all := ms + [Set(o)];
    var s := Run(id, all, answers);
    var before := Effects(db, ms);
    written := map[];
    AllOrNothing(id, all, answers, verdict, fetched, db);
    RunsWell(id, all, answers);
    if s.open && verdict.Committed? {
      LastIsAccepted(id, all, answers);
      AcceptedIsWritable(o, answers[|ms|]);
      EffectsKeepTheRest(db, ms, store);
      written := CommittedSet(before, o, store);
      EffectsConcat(db, ms, [Set(o)]);
    }
  }

  /** And if the last of them is a delete, there is no row with its key. */
  lemma CommittedLastDelete(id: Bytes, ms: seq<Message>, o: Manipulation, store: Bytes, answers: seq<Answer>,
                            verdict: Verdict, fetched: seq<seq<Row>>, db: Database)
    requires |answers| == |ms| + 1 && forall m :: m in ms ==> m.Set? || m.Get? || m.Delete?
    requires o.storeInfo != [] && o.storeInfo[0].storeName.GetOr([]) == store && store in db
    ensures var s := Run(id, ms + [Delete(o)], answers);
            var replies := AllReplies(id, s, verdict, fetched);
            var after := DatabaseAfter(db, s, verdict);
            && (s.crashed ==> replies == [] && after == db)
            && (!s.crashed ==> |replies| == 1)
            && (!s.crashed && replies[0].errorCode.Some? ==> after == db)
            && (!s.crashed && replies[0].errorCode.None? ==>
                  && store in after
                  && forall r :: r in after[store].rows ==>
                       exists c :: c in o.primaryKey
                                   && !(c.name.GetOr([]) in r && r[c.name.GetOr([])] == c.value.GetOr([])))
  {
    hide Run;
    hide Effects;
    hide CallbackReply;
    var all := ms + [Delete(o)];
    var s := Run(id, all, answers);
    var before := Effects(db, ms);
    AllOrNothing(id, all, answers, verdict, fetched, db);
    if s.open && verdict.Committed? {
      EffectsKeepTheRest(db, ms, store);
      var indexes := CommittedDelete(before, o, store);
      EffectsConcat(db, ms, [Delete(o)]);
    }
  }

  lemma BothTakeEffect(id: Bytes, first: Message, second: Message, answers: seq<Answer>, verdict: Verdict,
                       fetched: seq<seq<Row>>, db: Database)
    requires |answers| == 2 && (first.Set? || first.Get? || first.Delete?)
    requires second.Set? || second.Get? || second.Delete?
    ensures var s := Run(id, [first, second], answers);
            var replies := AllReplies(id, s, verdict, fetched);
            var after := DatabaseAfter(db, s, verdict);
            if s.crashed then replies == [] && after == db
            else
              && |replies| == 1
              && after == if replies[0].errorCode.None? then Effect(Effect(db, first), second) else db
    ensures !Run(id, [first, second], answers).IsOver() ==>
              PlanFor(first, answers[0]) == GetPlanning.Accepted && PlanFor(second, answers[1]) == GetPlanning.Accepted
  {
    hide Run;
    hide Effect;
    hide PlanFor;
    hide CallbackReply;
    var ms := [first, second];
    AllOrNothing(id, ms, answers, verdict, fetched, db);
    assert ms == [first] + [second] && [first] == [] + [first];
    LastEffect(db, [], first);
    LastEffect(db, [first], second);
    RunStep(id, ms, answers, 1);
    assert ms[..2] == ms && answers[..2] == answers && ms[..1] == [first] && answers[..1] == [answers[0]];
    if !Run(id, ms, answers).IsOver() {
      LastIsAccepted(id, ms, answers);
      LastIsAccepted(id, [first], [answers[0]]);
    }
  }

  /** A set and a delete of the same key in the same store: the rows with other keys are left, as they were. */
  lemma TakenBack(db: Database, o: Manipulation, o': Manipulation, store: Bytes) returns (indexes: seq<nat>)
    requires StoreOf(o) == StoreOf(o') == Some(store) && store in db
    requires o.primaryKey == o'.primaryKey && IsWritable(o.primaryKey, o.value)
    ensures var after := Effect(Effect(db, Set(o)), Delete(o'));
            store in after && Picks(db[store].rows, r => !Matches(r, o.primaryKey), after[store].rows, indexes)
  {
    hide Write;
    hide Picks;
    hide IsWritable;
    indexes := EraseIsInOrder(db[store].rows, o.primaryKey);
    WriteChangesOneKey(db[store].rows, o.primaryKey, o.value);
  }

  lemma OfDifferentStores(db: Database, o: Manipulation, o': Manipulation, a: Bytes, b: Bytes)
    requires StoreOf(o) == Some(a) && StoreOf(o') == Some(b) && a in db && b in db && a != b
    ensures Effect(Effect(db, Set(o)), Delete(o')) == Effect(Effect(db, Delete(o')), Set(o))
  {
    hide Write;
    hide Erase;
  }

  /**
   A set and then a delete: with the same store and key the delete takes back what the set did, so that the
   rows with other keys are left, as they were; in different stores it makes no difference which comes first.
   */
  lemma SetThenDelete(id: Bytes, o: Manipulation, o': Manipulation, a: Bytes, b: Bytes, answers: seq<Answer>,
                      verdict: Verdict, fetched: seq<seq<Row>>, db: Database)
    returns (indexes: seq<nat>)
    requires |answers| == 2
    requires o.storeInfo != [] && o.storeInfo[0].storeName.GetOr([]) == a && a in db
    requires o'.storeInfo != [] && o'.storeInfo[0].storeName.GetOr([]) == b && b in db
    ensures var s := Run(id, [Set(o), Delete(o')], answers);
            var replies := AllReplies(id, s, verdict, fetched);
            var after := DatabaseAfter(db, s, verdict);
            && (s.crashed ==> replies == [] && after == db)
            && (!s.crashed ==> |replies| == 1)
            && (!s.crashed && replies[0].errorCode.Some? ==> after == db)
            && (!s.crashed && replies[0].errorCode.None? ==>
                  && (a == b && o.primaryKey == o'.primaryKey ==>
                        && a in after
                        && Picks(db[a].rows, r => !Matches(r, o.primaryKey), after[a].rows, indexes))
                  && (a != b ==>
                        && after == AfterCallback(AfterCallback(db, [Set(o)], Committed), [Delete(o')], Committed)
                        && after == AfterCallback(AfterCallback(db, [Delete(o')], Committed), [Set(o)], Committed)))
  {
    hide Run;
    hide Effect;
    hide PlanFor;
    hide IsWritable;
    hide Picks;
    hide AfterCallback;
    hide AllReplies;
    var s := Run(id, [Set(o), Delete(o')], answers);
    BothTakeEffect(id, Set(o), Delete(o'), answers, verdict, fetched, db);
    NoErrorNotOver(id, [Set(o), Delete(o')], answers, verdict, fetched);
    indexes := [];
    OneEffect(db, Set(o));
    OneEffect(Effect(db, Set(o)), Delete(o'));
    OneEffect(db, Delete(o'));
    OneEffect(Effect(db, Delete(o')), Set(o));
    if !s.IsOver() {
      AcceptedIsWritable(o, answers[0]);
      if a != b {
        OfDifferentStores(db, o, o', a, b);
      } else if o.primaryKey == o'.primaryKey {
        indexes := TakenBack(db, o, o', a);
      }
    }
  }

  lemma NoErrorNotOver(id: Bytes, ms: seq<Message>, answers: seq<Answer>, verdict: Verdict, fetched: seq<seq<Row>>)
    requires |answers| == |ms| && ms != [] && forall m :: m in ms ==> !m.IsDefinition()
    ensures var s := Run(id, ms, answers);
            var replies := AllReplies(id, s, verdict, fetched);
            s.IsOver() ==> s.crashed || (|replies| == 1 && replies[0].errorCode.Some?)
  {
    hide Run;
    hide CallbackReply;
    OpenMeansNoCrash(id, ms, answers);
    AllOrNothing(id, ms, answers, verdict, fetched, map[]);
  }
}
