/** What a committed GET answers in the pipeline: the rows a filter of its table finds at that time. */
module PipelineReads {
  import opened Wrappers
  import opened Wire
  import opened ColumnCodec
  import opened OperationCodec
  import opened Messages
  import opened ResultCodec
  import opened FrameDecoding
  import opened Transport
  import opened NdbTables
  import opened TableIntegrity
  import opened TupleRuns
  import opened Commits
  import opened Execution
  import opened Pipeline
  import opened PipelinePlaces
  import opened PipelineReplies
  import opened PipelineSafety
  import opened PipelineOutcomes
  import GetPlanning

  // ---------------------------------------------------------------- one GET

  /** The rows NDB finds for a GET in a table: `hash` picks partitions, `stale` is in a lookup's buffer. */
  ghost predicate IsFound(table: Table, o: Manipulation, hash: seq<Bytes> -> nat, stale: TableRow, rows: seq<Row>) {
    rows == GetPlanning.RowsOf(table.info, GetPlanning.GetRecords(o, table, hash, stale))
  }

  /**
   The rows show what a filter of the whole table finds: by the keys, if there are any and no more than the
   table has, and else by the values. Of a lookup by the whole key this is asked only if there is a row.
   */
  ghost predicate IsFiltered(table: Table, o: Manipulation, rows: seq<Row>) {
    var (given, keys) := (|o.primaryKey|, |table.info.PrimaryKeys()|);
    if given == keys then
      (exists r :: r in table.rows && Matches(r, o.primaryKey)) ==>
        GetPlanning.AreShown(table.info, Filter(table, o.primaryKey), rows)
    else if 0 < given < keys then GetPlanning.AreShown(table.info, Filter(table, o.primaryKey), rows)
    else GetPlanning.AreShown(table.info, Filter(table, o.value), rows)
  }

  lemma FoundIsFiltered(table: Table, o: Manipulation, ndb: GetPlanning.NdbAnswers, hash: seq<Bytes> -> nat,
                        stale: TableRow, rows: seq<Row>)
    requires table.Valid() && GetPlanning.PlanOf(o, Some(table.info), ndb) == GetPlanning.Accepted
    requires IsFound(table, o, hash, stale, rows)
    ensures IsFiltered(table, o, rows)
  {
    hide GetPlanning.RowsOf;
    hide GetPlanning.GetRecords;
    hide GetPlanning.AreShown;
    hide Filter;
    hide GetPlanning.PlanOf;
    hide Table.Valid;
    GetPlanning.GetIsFilter(o, table, ndb, hash, stale);
    FilterIsShown(table, o.primaryKey);
    FilterIsShown(table, o.value);
  }

  lemma FilterIsShown(table: Table, conditions: seq<ColumnValue>)
    requires table.Valid()
    ensures GetPlanning.AreShown(table.info, Filter(table, conditions),
                                 GetPlanning.RowsOf(table.info, Filter(table, conditions)))
  {
    hide GetPlanning.AreShown;
    forall r
      ensures r in Filter(table, conditions) ==> r in table.rows
    {
      SelectContains(table.rows, (s: TableRow) => Matches(s, conditions), r);
    }
    GetPlanning.RowsShowRecords(table.info, Filter(table, conditions));
  }

  // ---------------------------------------------------------------- the GETs of a transaction

  /** Which store a GET is for, and the table that store has in db. */
  predicate IsFor(db: Database, m: Message, store: Bytes) {
    m.Get? && StoreOf(m.operation) == Some(store) && store in db
  }

  /** NDB runs the operations in order, so that each GET finds what those before it have left. */
  ghost predicate AreFound(db: Database, operations: seq<Message>, hash: Bytes -> seq<Bytes> -> nat,
                           stales: seq<TableRow>, fetched: seq<seq<Row>>) {
    && |stales| == |fetched| == |operations|
    && forall i, store :: 0 <= i < |operations| && IsFor(Effects(db, operations[..i]), operations[i], store) ==>
         IsFound(Effects(db, operations[..i])[store], operations[i].operation, hash(store), stales[i], fetched[i])
  }

  /** GETs were planned with the tables as they are: what the cache said is current. */
  ghost predicate UsesTables(db: Database, ms: seq<Message>, answers: seq<Answer>)
    requires |answers| == |ms|
  {
    forall j, store :: 0 <= j < |ms| && IsFor(db, ms[j], store) ==> answers[j].info == Some(db[store].info)
  }

  lemma {:induction false} PrefixFits(db: Database, ms: seq<Message>, i: nat)
    requires AllFit(db, ms) && i <= |ms|
    ensures AllFit(db, ms[..i])
  {
    hide Fits;
    if i == |ms| {
      assert ms[..i] == ms;
    } else {
      PrefixFits(db, ms[..|ms| - 1], i);
      assert ms[..|ms| - 1][..i] == ms[..i];
    }
  }

  /** Every operation of a prepared transaction was accepted when it was planned. */
  lemma {:induction false} OperationsWereAccepted(id: Bytes, ms: seq<Message>, answers: seq<Answer>, i: nat)
    requires |answers| == |ms| && !Run(id, ms, answers).IsOver() && i < |Run(id, ms, answers).operations|
    ensures exists j :: 0 <= j < |ms| && ms[j] == Run(id, ms, answers).operations[i]
                        && PlanFor(ms[j], answers[j]) == GetPlanning.Accepted
  {
    hide RefusalText;
    hide DefinitionResult;
    hide PlanFor;
    if ms != [] {
      var last := |ms| - 1;
      var before := Run(id, ms[..last], answers[..last]);
      assert !before.IsOver();
      if i < |before.operations| {
        OperationsWereAccepted(id, ms[..last], answers[..last], i);
        var j :| 0 <= j < last && ms[..last][j] == before.operations[i]
                 && PlanFor(ms[..last][j], answers[..last][j]) == GetPlanning.Accepted;
        assert ms[j] == ms[..last][j] && answers[j] == answers[..last][j];
      }
    }
  }

  lemma TransactionFinds(id: Bytes, ms: seq<Message>, answers: seq<Answer>, db: Database,
                         hash: Bytes -> seq<Bytes> -> nat, stales: seq<TableRow>, fetched: seq<seq<Row>>, i: nat,
                         store: Bytes)
    requires |answers| == |ms| && !Run(id, ms, answers).IsOver()
    requires var operations := Run(id, ms, answers).operations;
             && i < |operations| && IsSound(db) && AllFit(db, operations)
             && AreFound(db, operations, hash, stales, fetched) && UsesTables(db, ms, answers)
             && IsFor(db, operations[i], store)
    ensures var operations := Run(id, ms, answers).operations;
            && i < |fetched| && store in Effects(db, operations[..i])
            && IsFiltered(Effects(db, operations[..i])[store], operations[i].operation, fetched[i])
  {
    hide Run;
    hide Effects;
    hide AllFit;
    hide IsFound;
    hide IsFiltered;
    hide Table.Valid;
    hide GetPlanning.PlanOf;
    var operations := Run(id, ms, answers).operations;
    var seen := Effects(db, operations[..i]);
    PrefixFits(db, operations, i);
    EffectsKeepDatabase(db, operations[..i]);
    EffectsKeepTheRest(db, operations[..i], store);
    OperationsWereAccepted(id, ms, answers, i);
    var j :| 0 <= j < |ms| && ms[j] == operations[i] && PlanFor(ms[j], answers[j]) == GetPlanning.Accepted;
    assert IsFor(db, ms[j], store) && IsFor(seen, operations[i], store);
    FoundIsFiltered(seen[store], operations[i].operation, answers[j].ndb, hash(store), stales[i], fetched[i]);
  }

  // ---------------------------------------------------------------- reading what was written

  /** A lookup in a sound table by the whole key of one of its rows finds that row alone. */
  lemma OneRowIsFiltered(table: Table, o: Manipulation, written: TableRow, rows: seq<Row>)
    requires table.Valid() && |o.primaryKey| == |table.info.PrimaryKeys()|
    requires GetPlanning.Bindable(table.info.PrimaryKeys(), o.primaryKey)
    requires written in table.rows && Matches(written, o.primaryKey) && IsFiltered(table, o, rows)
    ensures GetPlanning.AreShown(table.info, [written], rows)
  {
    hide Table.Valid;
    hide GetPlanning.AreShown;
    hide GetPlanning.Bindable;
    hide Matches;
    forall i, j | 0 <= i < j < |table.rows|
      ensures !(Matches(table.rows[i], o.primaryKey) && Matches(table.rows[j], o.primaryKey))
    {
      if Matches(table.rows[i], o.primaryKey) && Matches(table.rows[j], o.primaryKey) {
        KeysDiffer(table, i, j);
        GetPlanning.MatchesSameKey(table, o.primaryKey, table.rows[i], table.rows[j]);
      }
    }
    GetPlanning.LookupIsFilter(table, o.primaryKey, written);
    SelectContains(table.rows, (r: TableRow) => Matches(r, o.primaryKey), written);
    assert Filter(table, o.primaryKey) == [written];
  }

  lemma KeysDiffer(table: Table, i: nat, j: nat)
    requires table.Valid() && i < j < |table.rows|
    ensures !SameKey(table.info, table.rows[i], table.rows[j])
  {
  }

  /**
   A transaction reads what it has written: a GET by the whole key right after a set with that key finds
   one row, which has the key and, of the values given for a column, the last.
   */
  lemma ReadsItsOwnWrite(id: Bytes, ms: seq<Message>, answers: seq<Answer>, db: Database,
                         hash: Bytes -> seq<Bytes> -> nat, stales: seq<TableRow>, fetched: seq<seq<Row>>, i: nat,
                         store: Bytes, o: Manipulation, g: Manipulation)
    returns (written: TableRow)
    requires |answers| == |ms| && !Run(id, ms, answers).IsOver()
    requires var operations := Run(id, ms, answers).operations;
             && i + 1 < |operations| && IsSound(db) && AllFit(db, operations)
             && AreFound(db, operations, hash, stales, fetched) && UsesTables(db, ms, answers)
             && operations[i] == Set(o) && operations[i + 1] == Get(g)
    requires StoreOf(o) == StoreOf(g) == Some(store) && store in db
    requires g.primaryKey == o.primaryKey && |o.primaryKey| == |db[store].info.PrimaryKeys()|
    ensures i + 1 < |fetched| && GetPlanning.AreShown(db[store].info, [written], fetched[i + 1])
    ensures IsWritten(written, o)
  {
    hide Run;
    hide AllFit;
    hide AreFound;
    hide IsFiltered;
    hide Effects;
    hide Effect;
    hide IsSound;
    hide IsWritten;
    hide Matches;
    hide Table.Valid;
    hide GetPlanning.AreShown;
    hide GetPlanning.Bindable;
    hide PlanFor;
    hide UsesTables;
    var operations := Run(id, ms, answers).operations;
    TransactionFinds(id, ms, answers, db, hash, stales, fetched, i + 1, store);
    EffectsKeepTheRest(db, operations[..i + 1], store);
    written := SetIsSeen(id, ms, answers, db, i, o, store);
    FitsHere(db, operations, i, o, store);
    TableSeen(db, operations, i + 1, store);
    OneRowIsFiltered(Effects(db, operations[..i + 1])[store], g, written, fetched[i + 1]);
  }

  lemma SetIsSeen(id: Bytes, ms: seq<Message>, answers: seq<Answer>, db: Database, i: nat, o: Manipulation,
                  store: Bytes)
    returns (written: TableRow)
    requires |answers| == |ms| && !Run(id, ms, answers).IsOver()
    requires i < |Run(id, ms, answers).operations| && Run(id, ms, answers).operations[i] == Set(o)
    requires StoreOf(o) == Some(store) && store in db
    ensures var seen := Effects(db, Run(id, ms, answers).operations[..i + 1]);
            store in seen && written in seen[store].rows && IsWritten(written, o) && Matches(written, o.primaryKey)
  {
    hide Run;
    hide Effects;
    hide Effect;
    hide IsWritable;
    hide PlanFor;
    var operations := Run(id, ms, answers).operations;
    var before := Effects(db, operations[..i]);
    EffectsKeepTheRest(db, operations[..i], store);
    assert operations[..i + 1] == operations[..i] + [Set(o)];
    LastEffect(db, operations[..i], Set(o));
    OneEffect(before, Set(o));
    OperationsWereAccepted(id, ms, answers, i);
    var j :| 0 <= j < |ms| && ms[j] == operations[i] && PlanFor(ms[j], answers[j]) == GetPlanning.Accepted;
    AcceptedIsWritable(o, answers[j]);
    written := CommittedSet(before, o, store);
  }

  lemma TableSeen(db: Database, operations: seq<Message>, i: nat, store: Bytes)
    requires IsSound(db) && AllFit(db, operations) && i <= |operations| && store in Effects(db, operations[..i])
    ensures Effects(db, operations[..i])[store].Valid()
  {
    hide AllFit;
    hide Effects;
    hide Table.Valid;
    PrefixFits(db, operations, i);
    EffectsKeepDatabase(db, operations[..i]);
  }

  lemma FitsHere(db: Database, operations: seq<Message>, i: nat, o: Manipulation, store: Bytes)
    requires AllFit(db, operations) && i < |operations| && operations[i] == Set(o) && StoreOf(o) == Some(store)
    requires store in db
    ensures GetPlanning.Bindable(db[store].info.PrimaryKeys(), o.primaryKey)
  {
    hide Effects;
    hide GetPlanning.Bindable;
    PrefixFits(db, operations, i + 1);
    EffectsKeepTheRest(db, operations[..i], store);
    assert operations[..i + 1][..i] == operations[..i];
  }

  // ---------------------------------------------------------------- in every reachable state

  lemma {:induction false} EndedFitPrefix(base: Database, items: seq<Item>, ended: seq<nat>, n: nat)
    requires EndedFit(base, items, ended) && n <= |ended|
    ensures EndedFit(base, items, ended[..n])
  {
    hide AllFit;
    if n == |ended| {
      assert ended[..n] == ended;
    } else {
      EndedFitPrefix(base, items, ended[..|ended| - 1], n);
      assert ended[..|ended| - 1][..n] == ended[..n];
    }
  }

  /** The database the n-th of the ended transactions found: sound, and its operations fit. */
  lemma DatabaseFound(base: Database, items: seq<Item>, ended: seq<nat>, n: nat)
    requires IsSound(base) && EndedFit(base, items, ended) && n < |ended|
    ensures var (db, t) := (DatabaseAfterEnded(base, items, ended[..n]), ended[n]);
            && IsSound(db)
            && (t < |items| && items[t].place.Ended? && items[t].place.verdict.Committed? ==>
                  AllFit(db, Operations(items[t].tuple.messages)))
  {
    hide IsSound;
    hide AllFit;
    hide DatabaseAfterEnded;
    EndedFitPrefix(base, items, ended, n + 1);
    EndedFitPrefix(base, items, ended, n);
    assert ended[..n + 1][..n] == ended[..n];
    EndedKeepDatabase(base, items, ended[..n]);
  }

  lemma EndedItem(item: Item) returns (r: Result)
    requires ItemOk(item) && item.place.Ended?
    ensures |item.place.answers| == |item.tuple.messages|
    ensures var s := Run(item.tuple.id, item.tuple.messages, item.place.answers);
            && !s.IsOver() && s.operations == Operations(item.tuple.messages)
            && r == CallbackReply(item.tuple.id, s.operations, item.place.verdict, item.place.fetched)
    ensures item.replies != [] && item.replies[|item.replies| - 1] == ReplyEnvelope(item.tuple.identity, r)
  {
    hide Run;
    hide CallbackReply;
    hide ReplyEnvelope;
    var t := item.tuple;
    OpenMeansNoCrash(t.id, t.messages, item.place.answers);
    RunsWell(t.id, t.messages, item.place.answers);
    var s := Run(t.id, t.messages, item.place.answers);
    r := CallbackReply(t.id, s.operations, item.place.verdict, item.place.fetched);
  }

  /**
   In every reachable state: the last reply to a committed transaction answers each of its GETs with
   the rows a filter of the table finds, in the database that the transactions before it and its own
   operations before the GET have left. A key lookup without a row is the exception, as in GetIsFilter.
   */
  lemma CommittedGetsAreFilters(s: System, n: nat, hash: Bytes -> seq<Bytes> -> nat, stales: seq<TableRow>)
    returns (r: Result)
    requires Reachable(s) && n < |s.ended| && IsSound(s.base) && EndedFit(s.base, s.items, s.ended)
    requires var t := s.ended[n];
             t < |s.items| && s.items[t].place.Ended? && s.items[t].place.verdict.Committed?
             && |s.items[t].place.answers| == |s.items[t].tuple.messages|
    requires var (item, db) := (s.items[s.ended[n]], DatabaseAfterEnded(s.base, s.items, s.ended[..n]));
             && AreFound(db, Operations(item.tuple.messages), hash, stales, item.place.fetched)
             && UsesTables(db, item.tuple.messages, item.place.answers)
    ensures var (t, db) := (s.ended[n], DatabaseAfterEnded(s.base, s.items, s.ended[..n]));
            var operations := Operations(s.items[t].tuple.messages);
            && RepliesTo(s.log, t) != []
            && RepliesTo(s.log, t)[|RepliesTo(s.log, t)| - 1] == ReplyEnvelope(s.items[t].tuple.identity, r)
            && |r.results| == |operations|
            && forall i, store :: 0 <= i < |operations| && IsFor(db, operations[i], store) ==>
                 && store in Effects(db, operations[..i])
                 && IsFiltered(Effects(db, operations[..i])[store], operations[i].operation, r.results[i].rows)
  {
    hide LanesOk;
    hide DatabaseOk;
    hide CrashOk;
    hide RequestsOk;
    hide ItemOk;
    hide Run;
    hide AreFound;
    hide UsesTables;
    hide IsFiltered;
    hide DatabaseAfterEnded;
    hide EndedFit;
    hide Effects;
    hide Operations;
    hide IsSound;
    hide AllFit;
    hide ReplyEnvelope;
    ReachableIsInOrder(s);
    var t, db := s.ended[n], DatabaseAfterEnded(s.base, s.items, s.ended[..n]);
    var item := s.items[t];
    assert item in s.items;
    r := EndedItem(item);
    DatabaseFound(s.base, s.items, s.ended, n);
    var operations := Operations(item.tuple.messages);
    forall i, store | 0 <= i < |operations| && IsFor(db, operations[i], store)
      ensures store in Effects(db, operations[..i])
      ensures IsFiltered(Effects(db, operations[..i])[store], operations[i].operation, r.results[i].rows)
    {
      TransactionFinds(item.tuple.id, item.tuple.messages, item.place.answers, db, hash, stales, item.place.fetched, i,
                       store);
    }
  }
}
