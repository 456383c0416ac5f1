/**
 What set and delete operations keep: a table whose rows have all its columns and different keys
 stays one, as long as NDB takes only operations that name the whole key.
 */
module TableIntegrity {
  import opened Wrappers
  import opened Wire
  import opened ColumnCodec
  import opened OperationCodec
  import opened Messages
  import opened NdbTables
  import opened GetPlanning

  /** Different key columns, all of them: the equalities NDB takes for a set or a delete. */
  ghost predicate IsFullKey(info: TableInfo, key: seq<ColumnValue>) {
    |key| == |info.PrimaryKeys()| && Bindable(info.PrimaryKeys(), key)
  }

  /** The values are for other columns than the key's; a row that is not there yet gets all columns. */
  ghost predicate CanWrite(table: Table, key: seq<ColumnValue>, values: seq<ColumnValue>) {
    && IsFullKey(table.info, key) && (forall v :: v in values ==> NameOf(v) !in table.info.PrimaryKeys())
    && ((exists r :: r in table.rows && Matches(r, key))
        || forall name :: name in table.info.ColumnNames() ==> IsGiven(key, name) || IsGiven(values, name))
  }

  ghost predicate Fits(db: Database, m: Message) {
    match m
    case Set(o) =>
      (match StoreOf(o)
       case Some(store) => store in db ==> CanWrite(db[store], o.primaryKey, o.value)
       case None => true)
    case _ => true
  }

  ghost predicate AllFit(db: Database, ms: seq<Message>) {
    ms == [] || (AllFit(db, ms[..|ms| - 1]) && Fits(Effects(db, ms[..|ms| - 1]), ms[|ms| - 1]))
  }

  ghost predicate IsSound(db: Database) { forall store :: store in db ==> db[store].Valid() }

  // ---------------------------------------------------------------- deletes

  lemma {:induction false} SelectKeepsRows(info: TableInfo, rows: seq<TableRow>, test: TableRow -> bool)
    requires Table(info, rows).Valid()
    ensures Table(info, Select(rows, test)).Valid()
  {
    hide SameKey;
    if rows != [] {
      var last := |rows| - 1;
      var before := rows[..last];
      assert forall r :: r in before ==> r in rows;
      assert forall i :: 0 <= i < last ==> before[i] == rows[i];
      SelectKeepsRows(info, before, test);
      if test(rows[last]) {
        var kept := Select(before, test);
        assert rows[last] in rows;
        forall i | 0 <= i < |kept|
          ensures !SameKey(info, kept[i], rows[last])
        {
          SelectContains(before, test, kept[i]);
          var j :| 0 <= j < last && before[j] == kept[i];
          assert rows[j] == kept[i];
        }
      }
    }
  }

  // ---------------------------------------------------------------- sets

  /** With the whole key bound, having the key is having the same key columns. */
  lemma FullKeyMatches(info: TableInfo, key: seq<ColumnValue>, r: TableRow, s: TableRow)
    requires info.Valid() && IsFullKey(info, key) && Matches(r, key)
    ensures SameKey(info, r, s) ==> Matches(s, key)
    ensures Matches(s, key) ==> SameKey(info, r, s)
  {
    FullKeyIsBound(info, key);
    if SameKey(info, r, s) {
      forall c | c in key
        ensures Binds(s, c)
      {
        assert Binds(r, c) && NameOf(c) in info.PrimaryKeys();
      }
    }
    if Matches(s, key) {
      forall name | name in info.PrimaryKeys()
        ensures name in r && name in s && r[name] == s[name]
      {
        var k :| 0 <= k < |key| && BoundNames(key)[k] == name;
        assert Binds(r, key[k]) && Binds(s, key[k]);
      }
    }
  }

  /** What there is to say of a row that is put into a table: its columns, and that its key is the given one. */
  ghost predicate IsRowWithKey(info: TableInfo, key: seq<ColumnValue>, r: TableRow) {
    Matches(r, key) && forall name :: name in info.ColumnNames() ==> name in r
  }

  lemma ValuesLeaveTheKey(info: TableInfo, key: seq<ColumnValue>, values: seq<ColumnValue>, was: TableRow)
    requires IsFullKey(info, key) && forall v :: v in values ==> NameOf(v) !in info.PrimaryKeys()
    requires IsRowWithKey(info, key, was)
    ensures IsRowWithKey(info, key, WithValues(was, values))
  {
    forall c | c in key
      ensures Binds(WithValues(was, values), c)
    {
      WithValuesColumn(was, values, NameOf(c));
    }
    forall name | name in info.ColumnNames()
      ensures name in WithValues(was, values)
    {
      WithValuesColumn(was, values, name);
    }
  }

  lemma NewRowHasKey(info: TableInfo, key: seq<ColumnValue>, values: seq<ColumnValue>)
    requires IsFullKey(info, key) && forall v :: v in values ==> NameOf(v) !in info.PrimaryKeys()
    ensures Matches(WithValues(WithValues(map[], key), values), key)
  {
    var was := WithValues(map[], key);
    forall c | c in key
      ensures Binds(WithValues(was, values), c)
    {
      var k :| 0 <= k < |key| && key[k] == c;
      WithValuesContains(map[], key, k);
      WithValuesColumn(was, values, NameOf(c));
    }
  }

  lemma NewRowIsWhole(info: TableInfo, key: seq<ColumnValue>, values: seq<ColumnValue>)
    requires forall name :: name in info.ColumnNames() ==> IsGiven(key, name) || IsGiven(values, name)
    ensures forall name :: name in info.ColumnNames() ==> name in WithValues(WithValues(map[], key), values)
  {
    var was := WithValues(map[], key);
    forall name | name in info.ColumnNames()
      ensures name in WithValues(was, values)
    {
      WithValuesColumn(map[], key, name);
      WithValuesColumn(was, values, name);
    }
  }

  lemma FrontRow(info: TableInfo, r: TableRow, rows: seq<TableRow>)
    requires Table(info, rows).Valid() && forall name :: name in info.ColumnNames() ==> name in r
    requires forall s :: s in rows ==> !SameKey(info, r, s)
    ensures Table(info, [r] + rows).Valid()
  {
    hide SameKey;
    var longer := [r] + rows;
    forall i, j | 0 <= i < j < |longer|
      ensures !SameKey(info, longer[i], longer[j])
    {
      assert longer[j] == rows[j - 1] && rows[j - 1] in rows;
    }
  }

  lemma TailIsValid(info: TableInfo, rows: seq<TableRow>)
    requires Table(info, rows).Valid() && rows != []
    ensures Table(info, rows[1..]).Valid()
    ensures forall s :: s in rows[1..] ==> !SameKey(info, rows[0], s)
  {
    hide SameKey;
    var tail := rows[1..];
    assert forall s :: s in tail ==> s in rows;
    forall i, j | 0 <= i < j < |tail|
      ensures !SameKey(info, tail[i], tail[j])
    {
      assert tail[i] == rows[i + 1] && tail[j] == rows[j + 1];
    }
  }

  /** The rows afterwards: those there were, or the written one, which has the key. */
  lemma {:induction false} WriteMakes(rows: seq<TableRow>, key: seq<ColumnValue>, values: seq<ColumnValue>, r: TableRow)
    requires r in Write(rows, key, values)
    ensures r in rows
            || r == WithValues(WithValues(map[], key), values)
            || exists was :: was in rows && Matches(was, key) && r == WithValues(was, values)
  {
    if rows != [] && !Matches(rows[0], key) && r != rows[0] {
      assert r in Write(rows[1..], key, values);
      WriteMakes(rows[1..], key, values, r);
    } else if rows != [] && Matches(rows[0], key) && r !in rows[1..] {
      assert rows[0] in rows;
    }
  }

  /** A row with another key than the given one has another key than all rows afterwards that are not it. */
  lemma OthersKeepTheirKey(info: TableInfo, rows: seq<TableRow>, key: seq<ColumnValue>, values: seq<ColumnValue>,
                           r: TableRow, s: TableRow)
    requires info.Valid() && IsFullKey(info, key) && forall v :: v in values ==> NameOf(v) !in info.PrimaryKeys()
    requires forall was :: was in rows ==> forall name :: name in info.ColumnNames() ==> name in was
    requires !Matches(r, key) && (forall was :: was in rows ==> !SameKey(info, r, was))
    requires s in Write(rows, key, values)
    ensures !SameKey(info, r, s)
  {
    hide SameKey;
    WriteMakes(rows, key, values, s);
    if s !in rows {
      if was :| was in rows && Matches(was, key) && s == WithValues(was, values) {
        ValuesLeaveTheKey(info, key, values, was);
      } else {
        NewRowHasKey(info, key, values);
      }
      FullKeyMatches(info, key, s, r);
      SameKeyIsSymmetric(info, r, s);
    }
  }

  lemma SameKeyIsSymmetric(info: TableInfo, r: TableRow, s: TableRow)
    ensures SameKey(info, r, s) <==> SameKey(info, s, r)
  {
  }

  lemma {:induction false} WriteKeepsTable(info: TableInfo, rows: seq<TableRow>, key: seq<ColumnValue>,
                                           values: seq<ColumnValue>)
    requires Table(info, rows).Valid() && CanWrite(Table(info, rows), key, values)
    ensures Table(info, Write(rows, key, values)).Valid()
  {
    hide SameKey;
    hide Matches;
    hide Bindable;
    if rows == [] {
      NewRowHasKey(info, key, values);
      NewRowIsWhole(info, key, values);
      assert Write(rows, key, values) == [WithValues(WithValues(map[], key), values)] + [];
      FrontRow(info, WithValues(WithValues(map[], key), values), []);
    } else if Matches(rows[0], key) {
      TailIsValid(info, rows);
      assert rows[0] in rows;
      ValuesLeaveTheKey(info, key, values, rows[0]);
      var r := WithValues(rows[0], values);
      forall s | s in rows[1..]
        ensures !SameKey(info, r, s)
      {
        FullKeyMatches(info, key, r, s);
        FullKeyMatches(info, key, rows[0], s);
      }
      FrontRow(info, r, rows[1..]);
    } else {
      TailIsValid(info, rows);
      assert forall s :: s in rows && s != rows[0] ==> s in rows[1..];
      assert rows[0] in rows;
      WriteKeepsTable(info, rows[1..], key, values);
      forall s | s in Write(rows[1..], key, values)
        ensures !SameKey(info, rows[0], s)
      {
        OthersKeepTheirKey(info, rows[1..], key, values, rows[0], s);
      }
      FrontRow(info, rows[0], Write(rows[1..], key, values));
    }
  }

  // ---------------------------------------------------------------- databases

  lemma EffectKeepsDatabase(db: Database, m: Message)
    requires IsSound(db) && Fits(db, m)
    ensures IsSound(Effect(db, m))
  {
    hide SameKey;
    hide CanWrite;
    match m
    case Set(o) =>
      if StoreOf(o).Some? && StoreOf(o).value in db {
        var table := db[StoreOf(o).value];
        WriteKeepsTable(table.info, table.rows, o.primaryKey, o.value);
      }
    case Delete(o) =>
      if StoreOf(o).Some? && StoreOf(o).value in db {
        var table := db[StoreOf(o).value];
        SelectKeepsRows(table.info, table.rows, r => !Matches(r, o.primaryKey));
      }
    case _ =>
  }

  /** Any sequence of operations that fit keeps all tables sound, so that GetIsFilter goes on to apply. */
  lemma {:induction false} EffectsKeepDatabase(db: Database, ms: seq<Message>)
    requires IsSound(db) && AllFit(db, ms)
    ensures IsSound(Effects(db, ms))
  {
    hide IsSound;
    hide Fits;
    if ms != [] {
      var last := |ms| - 1;
      EffectsKeepDatabase(db, ms[..last]);
      EffectKeepsDatabase(Effects(db, ms[..last]), ms[last]);
    }
  }
}
