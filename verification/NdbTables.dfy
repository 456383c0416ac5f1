/**
 The part of MySQL Cluster the executor relies on: tables of rows, partitioned by a hash of the
 distribution columns, and what the three kinds of operations do to them.
 */
module NdbTables {
  import opened Wrappers
  import opened Wire
  import opened ColumnCodec
  import opened OperationCodec
  import opened Messages

  datatype ColumnDef = ColumnDef(name: Bytes, typ: int32, isPrimaryKey: bool, isDistributionKey: bool)

  /** What the data dictionary says about a table. */
  datatype TableInfo = TableInfo(columns: seq<ColumnDef>)
  {
    function ColumnNames(): seq<Bytes> { Names(columns) }
    function PrimaryKeys(): seq<Bytes> { Names(Select(columns, (c: ColumnDef) => c.isPrimaryKey)) }

    /** The columns of PARTITION BY KEY, which are those of VOLODB_PRUNE_INDEX. */
    function DistributionKeys(): seq<Bytes> { Names(Select(columns, (c: ColumnDef) => c.isDistributionKey)) }

    ghost predicate Valid() { Distinct(ColumnNames()) }
  }

  /** The value of each column. */
  type TableRow = map<Bytes, Bytes>

  /** A table with its rows in the order in which a scan finds them. */
  datatype Table = Table(info: TableInfo, rows: seq<TableRow>)
  {
    ghost predicate Valid() {
      && info.Valid()
      && (forall r :: r in rows ==> forall name :: name in info.ColumnNames() ==> name in r)
      && forall i, j :: 0 <= i < j < |rows| ==> !SameKey(info, rows[i], rows[j])
    }
  }

  type Database = map<Bytes, Table>

  ghost predicate SameKey(info: TableInfo, r: TableRow, s: TableRow) {
    forall name :: name in info.PrimaryKeys() ==> name in r && name in s && r[name] == s[name]
  }

  // ---------------------------------------------------------------- lists

  function Names(columns: seq<ColumnDef>): (names: seq<Bytes>)
    ensures |names| == |columns|
    ensures forall i :: 0 <= i < |columns| ==> names[i] == columns[i].name
  {
    seq(|columns|, i requires 0 <= i < |columns| => columns[i].name)
  }

  predicate Distinct<T(==)>(s: seq<T>) {
    forall i, j :: 0 <= i < j < |s| ==> s[i] != s[j]
  }

  /** The elements that pass the test, in order. */
  function Select<T>(s: seq<T>, test: T -> bool): seq<T> {
    if s == [] then []
    else
      var last := |s| - 1;
      Select(s[..last], test) + if test(s[last]) then [s[last]] else []
  }

  lemma {:induction false} SelectConcat<T>(a: seq<T>, b: seq<T>, test: T -> bool)
    ensures Select(a + b, test) == Select(a, test) + Select(b, test)
  {
    if b == [] {
      assert a + b == a;
    } else {
      var last := |b| - 1;
      SelectConcat(a, b[..last], test);
      assert (a + b)[..|a + b| - 1] == a + b[..last];
    }
  }

  lemma SelectFront<T>(s: seq<T>, test: T -> bool)
    requires s != []
    ensures Select(s, test) == (if test(s[0]) then [s[0]] else []) + Select(s[1..], test)
  {
    SelectConcat([s[0]], s[1..], test);
    assert [s[0]] + s[1..] == s && [s[0]][..0] == [];
  }

  lemma {:induction false} SelectContains<T>(s: seq<T>, test: T -> bool, x: T)
    ensures x in Select(s, test) <==> x in s && test(x)
  {
    if s != [] {
      var last := |s| - 1;
      SelectContains(s[..last], test, x);
      assert s == s[..last] + [s[last]];
    }
  }

  lemma {:induction false} SelectCongruent<T(!new)>(s: seq<T>, test: T -> bool, other: T -> bool)
    requires forall x :: x in s ==> test(x) == other(x)
    ensures Select(s, test) == Select(s, other)
  {
    if s != [] {
      var last := |s| - 1;
      assert s[last] in s;
      SelectCongruent(s[..last], test, other);
    }
  }

  /** `picked` is the elements of s that pass the test, each once and in order: those at `indexes`. */
  ghost predicate Picks<T(!new)>(s: seq<T>, test: T -> bool, picked: seq<T>, indexes: seq<nat>) {
    && |indexes| == |picked|
    && (forall k :: 0 <= k < |indexes| ==> indexes[k] < |s| && s[indexes[k]] == picked[k])
    && (forall j, k :: 0 <= j < k < |indexes| ==> indexes[j] < indexes[k])
    && forall i :: 0 <= i < |s| ==> (i in indexes <==> test(s[i]))
  }

  lemma PicksOneMore<T(!new)>(s: seq<T>, test: T -> bool, picked: seq<T>, indexes: seq<nat>, x: T)
    requires Picks(s, test, picked, indexes)
    ensures if test(x) then Picks(s + [x], test, picked + [x], indexes + [|s|])
            else Picks(s + [x], test, picked, indexes)
  {
    var longer := indexes + [|s|];
    assert forall i :: i in longer <==> i in indexes || i == |s|;
    assert |s| !in indexes;
  }

  /** What is selected is every element that passes the test and no other. */
  lemma {:induction false} SelectIsInOrder<T(!new)>(s: seq<T>, test: T -> bool) returns (indexes: seq<nat>)
    ensures Picks(s, test, Select(s, test), indexes)
  {
    if s == [] {
      indexes := [];
    } else {
      hide Picks;
      var last := |s| - 1;
      indexes := SelectIsInOrder(s[..last], test);
      PicksOneMore(s[..last], test, Select(s[..last], test), indexes, s[last]);
      assert s[..last] + [s[last]] == s;
      assert Select(s[..last], test) + [] == Select(s[..last], test);
      if test(s[last]) {
        indexes := indexes + [last];
      }
    }
  }

  /** The primary keys of a table are the names of the columns that are flagged so, in order. */
  lemma PrimaryKeysAreFlagged(info: TableInfo) returns (indexes: seq<nat>)
    ensures |indexes| == |info.PrimaryKeys()|
    ensures forall k :: 0 <= k < |indexes| ==>
              indexes[k] < |info.columns| && info.PrimaryKeys()[k] == info.columns[indexes[k]].name
    ensures forall j, k :: 0 <= j < k < |indexes| ==> indexes[j] < indexes[k]
    ensures forall i :: 0 <= i < |info.columns| ==> (i in indexes <==> info.columns[i].isPrimaryKey)
  {
    indexes := SelectIsInOrder(info.columns, (c: ColumnDef) => c.isPrimaryKey);
  }

  /** And so are the distribution keys. */
  lemma DistributionKeysAreFlagged(info: TableInfo) returns (indexes: seq<nat>)
    ensures |indexes| == |info.DistributionKeys()|
    ensures forall k :: 0 <= k < |indexes| ==>
              indexes[k] < |info.columns| && info.DistributionKeys()[k] == info.columns[indexes[k]].name
    ensures forall j, k :: 0 <= j < k < |indexes| ==> indexes[j] < indexes[k]
    ensures forall i :: 0 <= i < |info.columns| ==> (i in indexes <==> info.columns[i].isDistributionKey)
  {
    indexes := SelectIsInOrder(info.columns, (c: ColumnDef) => c.isDistributionKey);
  }

  // ---------------------------------------------------------------- conditions on rows

  function NameOf(c: ColumnValue): Bytes { c.name.GetOr([]) }

  function ValueOf(c: ColumnValue): Bytes { c.value.GetOr([]) }

  predicate Binds(r: TableRow, c: ColumnValue) {
    NameOf(c) in r && r[NameOf(c)] == ValueOf(c)
  }

  /** A row with the given value in each of the given columns. */
  predicate Matches(r: TableRow, conditions: seq<ColumnValue>) {
    forall c :: c in conditions ==> Binds(r, c)
  }

  /** The rows of a table with the given values, in scan order. */
  function Filter(table: Table, conditions: seq<ColumnValue>): seq<TableRow> {
    Select(table.rows, r => Matches(r, conditions))
  }

  /** A filter finds, by place in the table, every row with all the given values, each once and in order. */
  lemma FilterFinds(table: Table, conditions: seq<ColumnValue>) returns (indexes: seq<nat>)
    ensures |indexes| == |Filter(table, conditions)|
    ensures forall k :: 0 <= k < |indexes| ==>
              indexes[k] < |table.rows| && table.rows[indexes[k]] == Filter(table, conditions)[k]
    ensures forall j, k :: 0 <= j < k < |indexes| ==> indexes[j] < indexes[k]
    ensures forall i :: 0 <= i < |table.rows| ==>
              (i in indexes
               <==> forall c :: c in conditions ==>
                      && c.name.GetOr([]) in table.rows[i]
                      && table.rows[i][c.name.GetOr([])] == c.value.GetOr([]))
  {
    indexes := SelectIsInOrder(table.rows, (r: TableRow) => Matches(r, conditions));
  }

  // ---------------------------------------------------------------- changes

  function WithValues(r: TableRow, values: seq<ColumnValue>): TableRow {
    if values == [] then r
    else
      var last := |values| - 1;
      WithValues(r, values[..last])[NameOf(values[last]) := ValueOf(values[last])]
  }

  /** writeTuple: changes the row with the given key, or adds one. */
  function Write(rows: seq<TableRow>, key: seq<ColumnValue>, values: seq<ColumnValue>): seq<TableRow> {
    if rows == [] then [WithValues(WithValues(map[], key), values)]
    else if Matches(rows[0], key) then [WithValues(rows[0], values)] + rows[1..]
    else [rows[0]] + Write(rows[1..], key, values)
  }

  /** deleteTuple. */
  function Erase(rows: seq<TableRow>, key: seq<ColumnValue>): seq<TableRow> {
    Select(rows, r => !Matches(r, key))
  }

  /** No column is given two values. */
  ghost predicate Consistent(cs: seq<ColumnValue>) {
    forall b, c :: b in cs && c in cs && NameOf(b) == NameOf(c) ==> ValueOf(b) == ValueOf(c)
  }

  /** No later value is for the same column. */
  ghost predicate IsLast(values: seq<ColumnValue>, i: nat)
    requires i < |values|
  {
    forall j :: i < j < |values| ==> NameOf(values[j]) != NameOf(values[i])
  }

  ghost predicate IsGiven(values: seq<ColumnValue>, name: Bytes) { exists v :: v in values && NameOf(v) == name }

  /** `r` has, of the values given for a column, the last, and the other columns of `was`. */
  ghost predicate Updated(r: TableRow, was: TableRow, values: seq<ColumnValue>) {
    && (forall i :: 0 <= i < |values| && IsLast(values, i) ==> Binds(r, values[i]))
    && forall name :: !IsGiven(values, name) ==> (name in r <==> name in was) && (name in r ==> r[name] == was[name])
  }

  lemma GivenSnoc(values: seq<ColumnValue>, name: Bytes)
    requires values != []
    ensures IsGiven(values, name)
            <==> IsGiven(values[..|values| - 1], name) || name == NameOf(values[|values| - 1])
  {
    assert values == values[..|values| - 1] + [values[|values| - 1]];
  }

  /** A column that is given no value stays; one that is given some is there afterwards. */
  lemma {:induction false} WithValuesColumn(was: TableRow, values: seq<ColumnValue>, name: Bytes)
    ensures name in WithValues(was, values) <==> name in was || IsGiven(values, name)
    ensures !IsGiven(values, name) && name in was ==> WithValues(was, values)[name] == was[name]
  {
    hide IsGiven;
    if values != [] {
      GivenSnoc(values, name);
      WithValuesColumn(was, values[..|values| - 1], name);
    } else {
      NothingGiven(name);
    }
  }

  lemma NothingGiven(name: Bytes)
    ensures !IsGiven([], name)
  {
  }

  lemma {:induction false} LastValueBinds(was: TableRow, values: seq<ColumnValue>, i: nat)
    requires i < |values| && IsLast(values, i)
    ensures Binds(WithValues(was, values), values[i])
  {
    var last := |values| - 1;
    if i < last {
      assert NameOf(values[last]) != NameOf(values[i]);
      LastValueBinds(was, values[..last], i);
    }
  }

  lemma WithValuesUpdates(was: TableRow, values: seq<ColumnValue>)
    ensures Updated(WithValues(was, values), was, values)
  {
    forall i | 0 <= i < |values| && IsLast(values, i)
      ensures Binds(WithValues(was, values), values[i])
    {
      LastValueBinds(was, values, i);
    }
    forall name
      ensures name in WithValues(was, values) <==> name in was || IsGiven(values, name)
      ensures !IsGiven(values, name) && name in was ==> WithValues(was, values)[name] == was[name]
    {
      WithValuesColumn(was, values, name);
    }
  }

  lemma {:induction false} ConsistentBinds(key: seq<ColumnValue>)
    requires Consistent(key)
    ensures Matches(WithValues(map[], key), key)
  {
    if key != [] {
      var last := |key| - 1;
      assert key == key[..last] + [key[last]];
      ConsistentBinds(key[..last]);
    }
  }

  /** NDB takes a set if it gives no key column two values, and does not change the key. */
  ghost predicate IsWritable(key: seq<ColumnValue>, values: seq<ColumnValue>) {
    Consistent(key) && forall c :: c in key ==> !IsGiven(values, NameOf(c))
  }

  lemma WrittenRow(was: TableRow, key: seq<ColumnValue>, values: seq<ColumnValue>)
    requires IsWritable(key, values) && Matches(was, key)
    ensures Matches(WithValues(was, values), key) && Updated(WithValues(was, values), was, values)
  {
    WithValuesUpdates(was, values);
  }

  /** The row a set changes: the first one with the key, or a new one with nothing but the key. */
  function Before(rows: seq<TableRow>, key: seq<ColumnValue>): TableRow {
    if rows == [] then WithValues(map[], key)
    else if Matches(rows[0], key) then rows[0]
    else Before(rows[1..], key)
  }

  /**
   Afterwards the row with the key has the values, the last one given for each column, and its other
   columns as before; the rows with other keys are as before, in their order.
   */
  lemma {:induction false} WriteChangesOneKey(rows: seq<TableRow>, key: seq<ColumnValue>, values: seq<ColumnValue>)
    requires IsWritable(key, values)
    ensures exists r :: r in Write(rows, key, values) && Matches(r, key) && Updated(r, Before(rows, key), values)
    ensures Select(Write(rows, key, values), r => !Matches(r, key)) == Select(rows, r => !Matches(r, key))
  {
    hide Updated;
    var others := (r: TableRow) => !Matches(r, key);
    if rows == [] || Matches(rows[0], key) {
      var was := Before(rows, key);
      var r := WithValues(was, values);
      if rows == [] {
        ConsistentBinds(key);
      }
      WrittenRow(was, key, values);
      assert Write(rows, key, values) == [r] + if rows == [] then [] else rows[1..];
      SelectFront(Write(rows, key, values), others);
      if rows != [] {
        SelectFront(rows, others);
        assert Write(rows, key, values)[1..] == rows[1..];
      }
      assert r in Write(rows, key, values);
    } else {
      WriteChangesOneKey(rows[1..], key, values);
      SelectFront(Write(rows, key, values), others);
      SelectFront(rows, others);
      assert Write(rows, key, values)[1..] == Write(rows[1..], key, values);
    }
  }

  /** Afterwards there is no row with the key, and all others are still there. */
  lemma EraseRemovesOneKey(rows: seq<TableRow>, key: seq<ColumnValue>)
    ensures forall r :: r in Erase(rows, key) <==> r in rows && !Matches(r, key)
  {
    forall r
      ensures r in Erase(rows, key) <==> r in rows && !Matches(r, key)
    {
      SelectContains(rows, r => !Matches(r, key), r);
    }
  }

  /** What a committed operation does to the database. */
  function Effect(db: Database, m: Message): Database {
    match m
    case Set(o) =>
      (match StoreOf(o)
       case Some(store) =>
         if store in db then db[store := db[store].(rows := Write(db[store].rows, o.primaryKey, o.value))] else db
       case None => db)
    case Delete(o) =>
      (match StoreOf(o)
       case Some(store) =>
         if store in db then db[store := db[store].(rows := Erase(db[store].rows, o.primaryKey))] else db
       case None => db)
    case _ => db
  }

  /** All the operations, one after the other. */
  function Effects(db: Database, ms: seq<Message>): Database {
    if ms == [] then db
    else
      var last := |ms| - 1;
      Effect(Effects(db, ms[..last]), ms[last])
  }

  /** store_info(0).store_name(); without a store_info there is none, and no such operation gets to NDB. */
  function StoreOf(o: Manipulation): Option<Bytes> {
    if o.storeInfo == [] then None else Some(o.storeInfo[0].storeName.GetOr([]))
  }
}
