/**
 Planning the operations of a transaction (NDBMessageExecutor.cpp): a set or delete by its key; a GET
 as a key lookup, a scan of the prune index or a filtered scan of the table, and what each returns.
 */
module GetPlanning {
  import opened Wrappers
  import opened Wire
  import opened ColumnCodec
  import opened OperationCodec
  import opened NdbTables
  import FrameCodec
  import ResultCodec

  // ---------------------------------------------------------------- NDB operations

  datatype Access = ByKey | ByPruneIndex | ByScan

  function BindableColumns(info: TableInfo, access: Access): seq<Bytes> {
    match access
    case ByKey => info.PrimaryKeys()
    case ByPruneIndex => info.DistributionKeys()
    case ByScan => info.ColumnNames()
  }

  function BoundNames(bounds: seq<ColumnValue>): (names: seq<Bytes>)
    ensures |names| == |bounds| && forall i :: 0 <= i < |bounds| ==> names[i] == NameOf(bounds[i])
  {
    seq(|bounds|, i requires 0 <= i < |bounds| => NameOf(bounds[i]))
  }

  /** Different columns, each of them one that may be bound. */
  predicate Bindable(columns: seq<Bytes>, bounds: seq<ColumnValue>) {
    (forall b :: b in bounds ==> NameOf(b) in columns) && Distinct(BoundNames(bounds))
  }

  /** NdbOperation and its scan subclasses: an access path, the equalities and the values set on it. */
  class NdbOperation {
    const info: TableInfo
    const access: Access
    var bounds: seq<ColumnValue>
    var values: seq<ColumnValue>

    constructor (info: TableInfo, access: Access)
      ensures this.info == info && this.access == access && bounds == [] && values == []
    {
      this.info, this.access, bounds, values := info, access, [], [];
    }

    /** equal(name, value): -1 for a column that cannot be bound, or is bound already. */
    method Equal(c: ColumnValue) returns (res: int)
      modifies `bounds
      ensures res == -1 || res == 0
      ensures res == 0 <==> NameOf(c) in BindableColumns(info, access) && NameOf(c) !in BoundNames(old(bounds))
      ensures bounds == if res == 0 then old(bounds) + [c] else old(bounds)
    {
      if NameOf(c) !in BindableColumns(info, access) || NameOf(c) in BoundNames(bounds) {
        return -1;
      }
      bounds := bounds + [c];
      return 0;
    }

    /** setValue(name, value): -1 for a column that the table does not have, or that is in its key. */
    method SetValue(c: ColumnValue) returns (res: int)
      modifies `values
      ensures res == -1 || res == 0
      ensures res == 0 <==> IsSettable(info, c)
      ensures values == if res == 0 then old(values) + [c] else old(values)
    {
      if !IsSettable(info, c) {
        return -1;
      }
      values := values + [c];
      return 0;
    }
  }

  predicate IsKnown(info: TableInfo, c: ColumnValue) { NameOf(c) in info.ColumnNames() }

  predicate IsSettable(info: TableInfo, c: ColumnValue) { IsKnown(info, c) && NameOf(c) !in info.PrimaryKeys() }

  /** setEqualPrimaryKey and setEqualDistributedKey: stops at the first refusal. */
  method SetEqual(keys: seq<ColumnValue>, ndbOperation: NdbOperation) returns (res: int)
    requires ndbOperation.bounds == []
    modifies ndbOperation`bounds
    ensures res == -1 || res == 0
    ensures res == 0 <==> Bindable(BindableColumns(ndbOperation.info, ndbOperation.access), keys)
    ensures res == 0 ==> ndbOperation.bounds == keys
  {
    ghost var columns := BindableColumns(ndbOperation.info, ndbOperation.access);
    assert Bindable(columns, keys[..0]);
    hide Bindable;
    hide BindableColumns;
    res := 0;
    var i := 0;
    while i < |keys|
      invariant i <= |keys| && res == 0 && ndbOperation.bounds == keys[..i]
      invariant Bindable(columns, keys[..i])
    {
      res := ndbOperation.Equal(keys[i]);
      BindableStep(columns, keys, i);
      if res == -1 {
        NotBindable(columns, keys, i + 1);
        break;
      }
      i := i + 1;
    }
    assert res == 0 ==> keys[..i] == keys;
  }

  lemma BindableStep(columns: seq<Bytes>, keys: seq<ColumnValue>, i: nat)
    requires i < |keys| && Bindable(columns, keys[..i])
    ensures Bindable(columns, keys[..i + 1])
            <==> NameOf(keys[i]) in columns && NameOf(keys[i]) !in BoundNames(keys[..i])
  {
    var before, after := keys[..i], keys[..i + 1];
    assert after[i] == keys[i] && after == before + [keys[i]];
    assert BoundNames(after) == BoundNames(before) + [NameOf(keys[i])];
    if NameOf(keys[i]) in BoundNames(before) {
      var k :| 0 <= k < i && BoundNames(before)[k] == NameOf(keys[i]);
      assert BoundNames(after)[k] == BoundNames(after)[i];
    }
  }

  lemma NotBindable(columns: seq<Bytes>, keys: seq<ColumnValue>, i: nat)
    requires i <= |keys| && !Bindable(columns, keys[..i])
    ensures !Bindable(columns, keys)
  {
    assert forall k :: 0 <= k < i ==> BoundNames(keys[..i])[k] == BoundNames(keys)[k];
  }

  // ---------------------------------------------------------------- sets and deletes

  /** How planning ends. `Crashed`: a null column was dereferenced. */
  datatype Plan = Accepted | Refused | Crashed

  /**
   execute(SetOperation): `info` is the table as NDB knows it, and `accepts` says whether it gives a
   handle and has no other objection.
   */
  function SetPlan(op: Manipulation, info: Option<TableInfo>, accepts: bool): Plan {
    if info.Some? && accepts && Bindable(info.value.PrimaryKeys(), op.primaryKey)
       && forall v :: v in op.value ==> IsSettable(info.value, v) then Accepted
    else Refused
  }

  function DeletePlan(op: Manipulation, info: Option<TableInfo>, accepts: bool): Plan {
    if info.Some? && accepts && Bindable(info.value.PrimaryKeys(), op.primaryKey) then Accepted else Refused
  }

  /** execute(SetOperation): the key, then the values one by one, up to the first refusal. */
  method Set(op: Manipulation, info: Option<TableInfo>, accepts: bool) returns (added: NdbOperation?)
    ensures added == null || fresh(added)
    ensures added != null <==> SetPlan(op, info, accepts) == Accepted
    ensures added != null ==>
              && info.Some? && added.info == info.value && added.access == ByKey
              && added.bounds == op.primaryKey && added.values == op.value
  {
    if info.None? || !accepts {
      return null;
    }
    var ndbSetOperation := new NdbOperation(info.value, ByKey);
    var res := SetEqual(op.primaryKey, ndbSetOperation);
    if res == -1 {
      return null;
    }
    var i := 0;
    while i < |op.value|
      invariant i <= |op.value| && ndbSetOperation.values == op.value[..i]
      invariant ndbSetOperation.bounds == op.primaryKey
      invariant forall k :: 0 <= k < i ==> IsSettable(info.value, op.value[k])
    {
      res := ndbSetOperation.SetValue(op.value[i]);
      if res == -1 {
        return null;
      }
      i := i + 1;
    }
    assert op.value[..i] == op.value;
    return ndbSetOperation;
  }

  /** execute(DeleteOperation): the key alone. */
  method Delete(op: Manipulation, info: Option<TableInfo>, accepts: bool) returns (added: NdbOperation?)
    ensures added == null || fresh(added)
    ensures added != null <==> DeletePlan(op, info, accepts) == Accepted
    ensures added != null ==>
              && info.Some? && added.info == info.value && added.access == ByKey
              && added.bounds == op.primaryKey && added.values == []
  {
    if info.None? || !accepts {
      return null;
    }
    var ndbDeleteOperation := new NdbOperation(info.value, ByKey);
    var res := SetEqual(op.primaryKey, ndbDeleteOperation);
    if res == -1 {
      return null;
    }
    return ndbDeleteOperation;
  }

  /** An accepted set gives no key column two values, and none of its values is for a key column. */
  lemma AcceptedSetIsWritable(op: Manipulation, info: TableInfo, accepts: bool)
    requires SetPlan(op, Some(info), accepts) == Accepted
    ensures IsWritable(op.primaryKey, op.value)
  {
    forall b, c | b in op.primaryKey && c in op.primaryKey && NameOf(b) == NameOf(c)
      ensures ValueOf(b) == ValueOf(c)
    {
      var i :| 0 <= i < |op.primaryKey| && op.primaryKey[i] == b;
      var j :| 0 <= j < |op.primaryKey| && op.primaryKey[j] == c;
      assert BoundNames(op.primaryKey)[i] == BoundNames(op.primaryKey)[j];
    }
  }

  /**
   Whatever set NDB accepts: afterwards the row with the key has the values, the last one given for
   each column, and its other columns as before; the rows with other keys are as before, in order.
   */
  lemma AcceptedSetChangesOneKey(op: Manipulation, info: TableInfo, accepts: bool, rows: seq<TableRow>)
    requires SetPlan(op, Some(info), accepts) == Accepted
    ensures var after := Write(rows, op.primaryKey, op.value);
            && (exists r :: r in after && Matches(r, op.primaryKey)
                            && Updated(r, Before(rows, op.primaryKey), op.value))
            && Select(after, r => !Matches(r, op.primaryKey)) == Select(rows, r => !Matches(r, op.primaryKey))
  {
    AcceptedSetIsWritable(op, info, accepts);
    WriteChangesOneKey(rows, op.primaryKey, op.value);
  }

  // ---------------------------------------------------------------- choosing the path

  /**
   What NDB answers besides the equalities, all arbitrary: whether there is a handle; for a filtered
   scan whether the filter begins, the condition it refuses first if any, and whether it ends;
   whether the table's columns can be fetched.
   */
  datatype NdbAnswers = NdbAnswers(handle: bool, begins: bool, refusedAt: Option<nat>, ends: bool, columns: bool)

  /** The path by the number of keys given, as the three branches choose it. */
  function AccessFor(op: Manipulation, info: TableInfo): Access {
    if |op.primaryKey| == |info.PrimaryKeys()| then ByKey
    else if op.primaryKey != [] && |op.primaryKey| < |info.PrimaryKeys()| then ByPruneIndex
    else ByScan
  }

  /** The equalities the path is given: the values, for a filtered scan, and else the keys. */
  function ConditionsFor(op: Manipulation, info: TableInfo): seq<ColumnValue> {
    if AccessFor(op, info) == ByScan then op.value else op.primaryKey
  }

  /** The filtered scan: an unknown column comes to light before its condition can be refused. */
  function ScanPlan(info: TableInfo, values: seq<ColumnValue>, ndb: NdbAnswers): Plan {
    if !ndb.begins then Refused
    else if exists i :: 0 <= i < |values| && !IsKnown(info, values[i]) && !RefusedBefore(ndb, i) then Crashed
    else if RefusedBefore(ndb, |values|) || !ndb.ends then Refused
    else Accepted
  }

  predicate RefusedBefore(ndb: NdbAnswers, i: nat) { ndb.refusedAt.Some? && ndb.refusedAt.value < i }

  /** execute(GetOperation), as a function of the dictionary's and NDB's answers. */
  function PlanOf(op: Manipulation, info: Option<TableInfo>, ndb: NdbAnswers): Plan {
    if info.None? || !ndb.handle then Refused
    else
      var access := AccessFor(op, info.value);
      var plan := if access == ByScan then ScanPlan(info.value, op.value, ndb)
                  else if Bindable(BindableColumns(info.value, access), op.primaryKey) then Accepted
                  else Refused;
      if plan == Accepted && !ndb.columns then Refused else plan
  }

  /** setEqualValue: stops at the first refusal; looking up an unknown column gives null. */
  method SetEqualValue(values: seq<ColumnValue>, ndbOperation: NdbOperation, ndb: NdbAnswers)
    returns (res: int, crashed: bool)
    requires ndbOperation.bounds == []
    modifies ndbOperation`bounds
    ensures res == -1 || res == 0
    ensures var plan := ScanPlan(ndbOperation.info, values, ndb);
            && (crashed <==> plan == Crashed)
            && (!crashed ==> (res == 0 <==> plan == Accepted))
    ensures !crashed && res == 0 ==> ndbOperation.bounds == values
  {
    if !ndb.begins {
      return -1, false;
    }
    var i := 0;
    while i < |values|
      invariant i <= |values| && ndbOperation.bounds == values[..i] && !RefusedBefore(ndb, i)
      invariant forall k :: 0 <= k < i ==> IsKnown(ndbOperation.info, values[k])
    {
      if !IsKnown(ndbOperation.info, values[i]) {
        return 0, true;
      }
      if ndb.refusedAt == Some(i) {
        return -1, false;
      }
      ndbOperation.bounds := ndbOperation.bounds + [values[i]];
      i := i + 1;
    }
    assert values[..i] == values;
    return if ndb.ends then 0 else -1, false;
  }

  /**
   execute(GetOperation): the operation added to the transaction, or null. `crashed`: it does not
   get that far, since a filtered scan dereferences what the dictionary says of each column.
   */
  method Get(op: Manipulation, info: Option<TableInfo>, ndb: NdbAnswers)
    returns (added: NdbOperation?, crashed: bool)
    ensures added == null || fresh(added)
    ensures crashed <==> PlanOf(op, info, ndb) == Crashed
    ensures added != null <==> PlanOf(op, info, ndb) == Accepted
    ensures added != null ==> info.Some?
    ensures added != null ==>
              var (given, keys) := (|op.primaryKey|, |info.value.PrimaryKeys()|);
              && added.info == info.value
              && (added.access == ByKey <==> given == keys)
              && (added.access == ByPruneIndex <==> 0 < given < keys)
              && added.bounds == if given == keys || 0 < given < keys then op.primaryKey else op.value
  {
    if info.None? {
      return null, false;
    }
    var table := info.value;
    if !ndb.handle {
      return null, false;
    }
    var ndbGetOperation;
    var res := 0;
    crashed := false;
    if |op.primaryKey| == |table.PrimaryKeys()| {
      ndbGetOperation := new NdbOperation(table, ByKey);
      res := SetEqual(op.primaryKey, ndbGetOperation);
    } else if |op.primaryKey| != 0 && |op.primaryKey| < |table.PrimaryKeys()| {
      ndbGetOperation := new NdbOperation(table, ByPruneIndex);
      res := SetEqual(op.primaryKey, ndbGetOperation);
    } else {
      ndbGetOperation := new NdbOperation(table, ByScan);
      res, crashed := SetEqualValue(op.value, ndbGetOperation, ndb);
    }
    if crashed || res == -1 || !ndb.columns {
      return null, crashed;
    }
    return ndbGetOperation, false;
  }

  // ---------------------------------------------------------------- what is accepted

  lemma ColumnIsKnown(info: TableInfo, name: Bytes)
    ensures name in info.ColumnNames() <==> exists d :: d in info.columns && d.name == name
  {
    if d :| d in info.columns && d.name == name {
      var i :| 0 <= i < |info.columns| && info.columns[i] == d;
      assert info.ColumnNames()[i] == name;
    }
  }

  lemma KeyColumnIsFlagged(info: TableInfo, name: Bytes)
    ensures name in info.PrimaryKeys() <==> exists d :: d in info.columns && d.isPrimaryKey && d.name == name
    ensures name in info.DistributionKeys() <==> exists d :: d in info.columns && d.isDistributionKey && d.name == name
  {
    SelectedName(info.columns, (d: ColumnDef) => d.isPrimaryKey, name);
    SelectedName(info.columns, (d: ColumnDef) => d.isDistributionKey, name);
  }

  lemma SelectedName(columns: seq<ColumnDef>, test: ColumnDef -> bool, name: Bytes)
    ensures name in Names(Select(columns, test)) <==> exists d :: d in columns && test(d) && d.name == name
  {
    var picked := Select(columns, test);
    forall d
      ensures d in picked <==> d in columns && test(d)
    {
      SelectContains(columns, test, d);
    }
    if d :| d in picked && d.name == name {
      var i :| 0 <= i < |picked| && picked[i] == d;
      assert Names(picked)[i] == name;
    }
    if name in Names(picked) {
      var i :| 0 <= i < |picked| && Names(picked)[i] == name;
      assert picked[i] in picked;
    }
  }

  lemma BindableByName(columns: seq<Bytes>, bounds: seq<ColumnValue>)
    ensures Bindable(columns, bounds)
            <==> && (forall b :: b in bounds ==> b.name.GetOr([]) in columns)
                 && forall i, j :: 0 <= i < j < |bounds| ==> bounds[i].name.GetOr([]) != bounds[j].name.GetOr([])
  {
    assert forall b :: NameOf(b) == b.name.GetOr([]);
  }

  /**
   A set is accepted exactly when there is a table, NDB has no objection of its own, the keys given are
   different key columns of the table, and the values are for other columns that it has.
   */
  lemma SetIsAcceptedExactlyWhen(op: Manipulation, info: Option<TableInfo>, accepts: bool)
    ensures SetPlan(op, info, accepts) == Accepted
            <==> && info.Some? && accepts
                 && (forall b :: b in op.primaryKey ==>
                       exists d :: d in info.value.columns && d.isPrimaryKey && d.name == b.name.GetOr([]))
                 && (forall i, j :: 0 <= i < j < |op.primaryKey| ==>
                       op.primaryKey[i].name.GetOr([]) != op.primaryKey[j].name.GetOr([]))
                 && forall v :: v in op.value ==>
                      && (exists d :: d in info.value.columns && d.name == v.name.GetOr([]))
                      && forall d :: d in info.value.columns && d.isPrimaryKey ==> d.name != v.name.GetOr([])
    ensures SetPlan(op, info, accepts) != Crashed
  {
    hide Bindable;
    if info.Some? {
      BindableByName(info.value.PrimaryKeys(), op.primaryKey);
      forall c: ColumnValue
        ensures NameOf(c) == c.name.GetOr([])
        ensures NameOf(c) in info.value.PrimaryKeys()
                <==> exists d :: d in info.value.columns && d.isPrimaryKey && d.name == NameOf(c)
        ensures IsKnown(info.value, c) <==> exists d :: d in info.value.columns && d.name == NameOf(c)
      {
        KeyColumnIsFlagged(info.value, NameOf(c));
        ColumnIsKnown(info.value, NameOf(c));
      }
    }
  }

  /** A delete exactly when the keys given are different key columns, whatever values it has. */
  lemma DeleteIsAcceptedExactlyWhen(op: Manipulation, info: Option<TableInfo>, accepts: bool)
    ensures DeletePlan(op, info, accepts) == Accepted
            <==> && info.Some? && accepts
                 && (forall b :: b in op.primaryKey ==>
                       exists d :: d in info.value.columns && d.isPrimaryKey && d.name == b.name.GetOr([]))
                 && forall i, j :: 0 <= i < j < |op.primaryKey| ==>
                      op.primaryKey[i].name.GetOr([]) != op.primaryKey[j].name.GetOr([])
    ensures DeletePlan(op, info, accepts) != Crashed
  {
    hide Bindable;
    if info.Some? {
      BindableByName(info.value.PrimaryKeys(), op.primaryKey);
      forall b | b in op.primaryKey
        ensures b.name.GetOr([]) in info.value.PrimaryKeys()
                <==> exists d :: d in info.value.columns && d.isPrimaryKey && d.name == b.name.GetOr([])
      {
        KeyColumnIsFlagged(info.value, b.name.GetOr([]));
      }
    }
  }

  /**
   A GET, by the number of keys it gives: as many as the table has must be different key columns of it,
   fewer must be different distribution columns; with none or too many the values must be for columns it
   has. Of a filter NDB can refuse any part; it is asked for the parts in order.
   */
  lemma GetIsAcceptedExactlyWhen(op: Manipulation, info: TableInfo, ndb: NdbAnswers)
    ensures PlanOf(op, None, ndb) == Refused
    ensures var (given, keys) := (|op.primaryKey|, |info.PrimaryKeys()|);
            PlanOf(op, Some(info), ndb) == Accepted
            <==> && ndb.handle && ndb.columns
                 && if given == keys || 0 < given < keys then
                      && (forall b :: b in op.primaryKey ==>
                            exists d :: d in info.columns && d.name == b.name.GetOr([])
                                        && if given == keys then d.isPrimaryKey else d.isDistributionKey)
                      && forall i, j :: 0 <= i < j < given ==>
                           op.primaryKey[i].name.GetOr([]) != op.primaryKey[j].name.GetOr([])
                    else
                      && ndb.begins && ndb.ends && (ndb.refusedAt.Some? ==> ndb.refusedAt.value >= |op.value|)
                      && forall v :: v in op.value ==> exists d :: d in info.columns && d.name == v.name.GetOr([])
  {
    hide Bindable;
    var (given, keys) := (|op.primaryKey|, |info.PrimaryKeys()|);
    BindableByName(info.PrimaryKeys(), op.primaryKey);
    BindableByName(info.DistributionKeys(), op.primaryKey);
    forall b | b in op.primaryKey
      ensures b.name.GetOr([]) in info.PrimaryKeys()
              <==> exists d :: d in info.columns && d.name == b.name.GetOr([]) && d.isPrimaryKey
      ensures b.name.GetOr([]) in info.DistributionKeys()
              <==> exists d :: d in info.columns && d.name == b.name.GetOr([]) && d.isDistributionKey
    {
      KeyColumnIsFlagged(info, b.name.GetOr([]));
    }
    ScanIsAccepted(info, op.value, ndb);
  }

  lemma ScanIsAccepted(info: TableInfo, values: seq<ColumnValue>, ndb: NdbAnswers)
    ensures ScanPlan(info, values, ndb) == Accepted
            <==> && ndb.begins && ndb.ends && (ndb.refusedAt.Some? ==> ndb.refusedAt.value >= |values|)
                 && forall v :: v in values ==> exists d :: d in info.columns && d.name == v.name.GetOr([])
  {
    forall v
      ensures IsKnown(info, v) <==> exists d :: d in info.columns && d.name == v.name.GetOr([])
    {
      ColumnIsKnown(info, NameOf(v));
    }
    if v :| v in values && !IsKnown(info, v) {
      var i :| 0 <= i < |values| && values[i] == v;
    }
  }

  /**
   The request alone, with the table it names, decides whether planning can crash: some answers of
   NDB make it crash exactly when it is a filtered scan with a column the table does not have.
   */
  lemma CrashesOnUnknownColumns(op: Manipulation, info: TableInfo)
    ensures (exists ndb :: PlanOf(op, Some(info), ndb) == Crashed)
            <==> && (op.primaryKey == [] || |op.primaryKey| > |info.PrimaryKeys()|)
                 && |op.primaryKey| != |info.PrimaryKeys()|
                 && exists c :: c in op.value && forall d :: d in info.columns ==> d.name != c.name.GetOr([])
  {
    forall c
      ensures IsKnown(info, c) <==> exists d :: d in info.columns && d.name == c.name.GetOr([])
    {
      ColumnIsKnown(info, NameOf(c));
    }
    if c :| AccessFor(op, info) == ByScan && c in op.value && !IsKnown(info, c) {
      var i: nat :| i < |op.value| && op.value[i] == c;
      var ndb := NdbAnswers(true, true, None, true, true);
      assert !IsKnown(info, op.value[i]) && !RefusedBefore(ndb, i);
      assert PlanOf(op, Some(info), ndb) == Crashed;
    }
  }

  // ---------------------------------------------------------------- what the path returns

  /** The partition of a row: the hash of its distribution columns, in declaration order. */
  function PartitionOf(info: TableInfo, hash: seq<Bytes> -> nat, r: TableRow): nat {
    hash(Project(r, info.DistributionKeys()))
  }

  function Project(r: TableRow, names: seq<Bytes>): (values: seq<Bytes>)
    ensures |values| == |names|
  {
    seq(|names|, i requires 0 <= i < |names| => if names[i] in r then r[names[i]] else [])
  }

  /** The row the equalities describe. */
  function Bound(bounds: seq<ColumnValue>): TableRow { WithValues(map[], bounds) }

  /** Equalities on every distribution column prune the scan to one partition. */
  predicate Pruned(info: TableInfo, bounds: seq<ColumnValue>) {
    forall name :: name in info.DistributionKeys() ==> name in BoundNames(bounds)
  }

  predicate Visited(info: TableInfo, hash: seq<Bytes> -> nat, bounds: seq<ColumnValue>, partition: nat) {
    Pruned(info, bounds) ==> partition == PartitionOf(info, hash, Bound(bounds))
  }

  /**
   The records of a committed GET. A lookup yields one record in any case: the row with the key
   or, without one, whatever is in the record's buffer. A scan yields the matching rows of the
   partitions it visits.
   */
  function Fetch(table: Table, hash: seq<Bytes> -> nat, access: Access, bounds: seq<ColumnValue>,
                 stale: TableRow): seq<TableRow> {
    match access
    case ByKey => [FirstMatch(table.rows, bounds, stale)]
    case ByPruneIndex =>
      Select(table.rows, r => Visited(table.info, hash, bounds, PartitionOf(table.info, hash, r)) && Matches(r, bounds))
    case ByScan => Select(table.rows, r => Matches(r, bounds))
  }

  function FirstMatch(rows: seq<TableRow>, conditions: seq<ColumnValue>, stale: TableRow): TableRow {
    if rows == [] then stale
    else if Matches(rows[0], conditions) then rows[0]
    else FirstMatch(rows[1..], conditions, stale)
  }

  // ---------------------------------------------------------------- key lookups

  function Elements<T>(s: seq<T>): set<T> { set x | x in s }

  lemma {:induction false} DistinctCount<T(!new)>(s: seq<T>)
    requires Distinct(s)
    ensures |Elements(s)| == |s|
  {
    if s != [] {
      var last := |s| - 1;
      DistinctCount(s[..last]);
      assert s == s[..last] + [s[last]];
      assert Elements(s) == Elements(s[..last]) + {s[last]};
      assert s[last] !in s[..last];
    }
  }

  lemma EqualSubset<T>(a: set<T>, b: set<T>)
    requires a <= b && |a| >= |b|
    ensures a == b
  {
    if x :| x in b && x !in a {
      SmallerSubset(a, b - {x});
    }
  }

  lemma SmallerSubset<T>(a: set<T>, b: set<T>)
    requires a <= b
    ensures |a| <= |b|
    decreases b
  {
    if x :| x in b {
      SmallerSubset(a - {x}, b - {x});
    }
  }

  lemma {:induction false} SelectDistinctNames(columns: seq<ColumnDef>, test: ColumnDef -> bool)
    requires Distinct(Names(columns))
    ensures Distinct(Names(Select(columns, test)))
  {
    if columns != [] {
      var last := |columns| - 1;
      var before := columns[..last];
      assert forall i :: 0 <= i < last ==> Names(before)[i] == Names(columns)[i];
      SelectDistinctNames(before, test);
      forall c | c in Select(before, test)
        ensures c.name != columns[last].name
      {
        SelectContains(before, test, c);
        var k :| 0 <= k < last && before[k] == c;
        assert Names(columns)[k] == c.name;
      }
    }
  }

  /** As many different key columns as there are: all of them (a pigeonhole argument). */
  lemma FullKeyIsBound(info: TableInfo, keys: seq<ColumnValue>)
    requires info.Valid() && |keys| == |info.PrimaryKeys()| && Bindable(info.PrimaryKeys(), keys)
    ensures forall name :: name in info.PrimaryKeys() ==> name in BoundNames(keys)
  {
    SelectDistinctNames(info.columns, (c: ColumnDef) => c.isPrimaryKey);
    DistinctCount(info.PrimaryKeys());
    DistinctCount(BoundNames(keys));
    EqualSubset(Elements(BoundNames(keys)), Elements(info.PrimaryKeys()));
    forall name | name in info.PrimaryKeys()
      ensures name in BoundNames(keys)
    {
      assert name in Elements(BoundNames(keys));
    }
  }

  lemma MatchesSameKey(table: Table, keys: seq<ColumnValue>, r: TableRow, s: TableRow)
    requires table.Valid() && |keys| == |table.info.PrimaryKeys()| && Bindable(table.info.PrimaryKeys(), keys)
    requires Matches(r, keys) && Matches(s, keys)
    ensures SameKey(table.info, r, s)
  {
    FullKeyIsBound(table.info, keys);
    forall name | name in table.info.PrimaryKeys()
      ensures name in r && name in s && r[name] == s[name]
    {
      var k :| 0 <= k < |keys| && BoundNames(keys)[k] == name;
      assert keys[k] in keys;
    }
  }

  /** With at most one matching row, the first match is all of them. */
  lemma {:induction false} FirstMatchIsFilter(rows: seq<TableRow>, conditions: seq<ColumnValue>, stale: TableRow)
    requires forall i, j :: 0 <= i < j < |rows| ==> !(Matches(rows[i], conditions) && Matches(rows[j], conditions))
    ensures Select(rows, r => Matches(r, conditions))
            == if exists i :: 0 <= i < |rows| && Matches(rows[i], conditions) then
                [FirstMatch(rows, conditions, stale)] else []
  {
    if rows != [] {
      var test := (r: TableRow) => Matches(r, conditions);
      SelectFront(rows, test);
      FirstMatchIsFilter(rows[1..], conditions, stale);
      if Matches(rows[0], conditions) {
        assert forall i :: 0 <= i < |rows[1..]| ==> rows[1..][i] == rows[i + 1];
        assert Select(rows[1..], test) == [];
      } else if i :| 0 <= i < |rows| && Matches(rows[i], conditions) {
        assert rows[1..][i - 1] == rows[i];
      }
    }
  }

  // ---------------------------------------------------------------- pruned scans

  lemma {:induction false} WithValuesContains(r: TableRow, values: seq<ColumnValue>, k: nat)
    requires k < |values| && Distinct(BoundNames(values))
    ensures NameOf(values[k]) in WithValues(r, values) && WithValues(r, values)[NameOf(values[k])] == ValueOf(values[k])
  {
    var last := |values| - 1;
    if k < last {
      assert forall i :: 0 <= i < last ==> BoundNames(values[..last])[i] == BoundNames(values)[i];
      WithValuesContains(r, values[..last], k);
      assert BoundNames(values)[k] != BoundNames(values)[last];
    }
  }

  /** Equalities on all distribution columns fix the partition of every row that meets them. */
  lemma MatchingRowsAreVisited(info: TableInfo, hash: seq<Bytes> -> nat, bounds: seq<ColumnValue>, r: TableRow)
    requires Bindable(info.DistributionKeys(), bounds) && Matches(r, bounds)
    ensures Visited(info, hash, bounds, PartitionOf(info, hash, r))
  {
    if Pruned(info, bounds) {
      var names := info.DistributionKeys();
      forall i | 0 <= i < |names|
        ensures Project(r, names)[i] == Project(Bound(bounds), names)[i]
      {
        assert names[i] in names;
        var k :| 0 <= k < |bounds| && BoundNames(bounds)[k] == names[i];
        assert bounds[k] in bounds;
        WithValuesContains(map[], bounds, k);
      }
      assert Project(r, names) == Project(Bound(bounds), names);
    }
  }

  /** A row is placed by the values of its distribution columns, in the order of their declaration. */
  lemma RowsArePlacedByDistributionKey(info: TableInfo, hash: seq<Bytes> -> nat, r: TableRow, values: seq<Bytes>)
    requires |values| == |info.DistributionKeys()|
    requires forall i :: 0 <= i < |values| ==>
               info.DistributionKeys()[i] in r && r[info.DistributionKeys()[i]] == values[i]
    ensures PartitionOf(info, hash, r) == hash(values)
  {
    assert Project(r, info.DistributionKeys()) == values;
  }

  /** A scan visits a single partition exactly when every distribution column is bound. */
  lemma OnePartitionIffAllBound(info: TableInfo, hash: seq<Bytes> -> nat, bounds: seq<ColumnValue>)
    ensures Pruned(info, bounds)
            <==> forall p: nat, q: nat :: Visited(info, hash, bounds, p) && Visited(info, hash, bounds, q) ==> p == q
  {
    if !Pruned(info, bounds) {
      assert Visited(info, hash, bounds, 0) && Visited(info, hash, bounds, 1);
    }
  }

  // ---------------------------------------------------------------- the main result

  /** The records a GET finds on the path that was chosen for it. */
  function GetRecords(op: Manipulation, table: Table, hash: seq<Bytes> -> nat, stale: TableRow): seq<TableRow> {
    Fetch(table, hash, AccessFor(op, table.info), ConditionsFor(op, table.info), stale)
  }

  /**
   Every GET that NDB accepts finds the rows a plain filter of the whole table finds, in scan order: by its
   keys, if it gives any and no more than the table has, and by its values otherwise. With the whole key it
   does so exactly when there is a row with the key; without one it finds what is in its buffer.
   */
  lemma GetIsFilter(op: Manipulation, table: Table, ndb: NdbAnswers, hash: seq<Bytes> -> nat, stale: TableRow)
    requires table.Valid() && PlanOf(op, Some(table.info), ndb) == Accepted
    ensures var (given, keys) := (|op.primaryKey|, |table.info.PrimaryKeys()|);
            var found := GetRecords(op, table, hash, stale);
            if given == keys then
              if exists r :: r in table.rows && forall c :: c in op.primaryKey ==>
                   c.name.GetOr([]) in r && r[c.name.GetOr([])] == c.value.GetOr([])
              then found == Filter(table, op.primaryKey) && |found| == 1
              else found == [stale] && Filter(table, op.primaryKey) == []
            else if 0 < given < keys then found == Filter(table, op.primaryKey)
            else found == Filter(table, op.value)
  {
    if AccessFor(op, table.info) == ByKey {
      forall i, j | 0 <= i < j < |table.rows|
        ensures !(Matches(table.rows[i], op.primaryKey) && Matches(table.rows[j], op.primaryKey))
      {
        if Matches(table.rows[i], op.primaryKey) && Matches(table.rows[j], op.primaryKey) {
          MatchesSameKey(table, op.primaryKey, table.rows[i], table.rows[j]);
        }
      }
      LookupIsFilter(table, op.primaryKey, stale);
    } else if AccessFor(op, table.info) == ByPruneIndex {
      PrunedScanIsFilter(table, hash, op.primaryKey);
    }
  }

  lemma LookupIsFilter(table: Table, key: seq<ColumnValue>, stale: TableRow)
    requires forall i, j :: 0 <= i < j < |table.rows| ==>
               !(Matches(table.rows[i], key) && Matches(table.rows[j], key))
    ensures if exists r :: r in table.rows && Matches(r, key)
            then [FirstMatch(table.rows, key, stale)] == Filter(table, key)
            else FirstMatch(table.rows, key, stale) == stale && Filter(table, key) == []
  {
    FirstMatchIsFilter(table.rows, key, stale);
    if !exists r :: r in table.rows && Matches(r, key) {
      NoMatchIsStale(table.rows, key, stale);
    }
    if i :| 0 <= i < |table.rows| && Matches(table.rows[i], key) {
      assert table.rows[i] in table.rows;
    }
  }

  lemma {:induction false} NoMatchIsStale(rows: seq<TableRow>, key: seq<ColumnValue>, stale: TableRow)
    requires forall r :: r in rows ==> !Matches(r, key)
    ensures FirstMatch(rows, key, stale) == stale
  {
    if rows != [] {
      assert rows[0] in rows && forall r :: r in rows[1..] ==> r in rows;
      NoMatchIsStale(rows[1..], key, stale);
    }
  }

  lemma PrunedScanIsFilter(table: Table, hash: seq<Bytes> -> nat, conditions: seq<ColumnValue>)
    requires Bindable(table.info.DistributionKeys(), conditions)
    ensures Select(table.rows, r => Visited(table.info, hash, conditions, PartitionOf(table.info, hash, r)) &&
                                    Matches(r, conditions))
            == Filter(table, conditions)
  {
    forall r | r in table.rows && Matches(r, conditions)
      ensures Visited(table.info, hash, conditions, PartitionOf(table.info, hash, r))
    {
      MatchingRowsAreVisited(table.info, hash, conditions, r);
    }
    SelectCongruent(table.rows,
                    r => Visited(table.info, hash, conditions, PartitionOf(table.info, hash, r)) &&
                        Matches(r, conditions),
                    r => Matches(r, conditions));
  }

  /** In an empty table a lookup finds whatever is in its buffer, where the filter finds nothing. */
  lemma LookupInAnEmptyTable(op: Manipulation, info: TableInfo, hash: seq<Bytes> -> nat, stale: TableRow)
    requires |op.primaryKey| == |info.PrimaryKeys()|
    ensures var table := Table(info, []);
            && GetRecords(op, table, hash, stale) == [stale]
            && Filter(table, op.primaryKey) == []
            && GetRecords(op, table, hash, stale) != Filter(table, op.primaryKey)
  {
  }

  // ---------------------------------------------------------------- rows for the reply

  /** A record as a Row: every table column in order, with its name, type and value. */
  function RowOf(info: TableInfo, r: TableRow): ResultCodec.Row {
    ResultCodec.Row(seq(|info.columns|, i requires 0 <= i < |info.columns| => CellOf(info.columns[i], r)), [])
  }

  function CellOf(c: ColumnDef, r: TableRow): ColumnValue {
    ColumnCodec.ColumnValue(Some(c.name), Some(c.typ), None, None, Some(if c.name in r then r[c.name] else []), [])
  }

  /**
   What the client reads of a cell: the column's name, its type unless its number is one that the protocol
   does not have, the value in the row, and no key flags.
   */
  lemma CellReadsBack(c: ColumnDef, r: TableRow)
    requires c.name in r && |CellOf(c, r).Bytes()| < TWO_31
    ensures ParseColumnValue(CellOf(c, r).Bytes())
            == Some(if ColumnTypeIsValid(c.typ) then
                      ColumnCodec.ColumnValue(Some(c.name), Some(c.typ), None, None, Some(r[c.name]), [])
                    else
                      ColumnCodec.ColumnValue(Some(c.name), None, None, None, Some(r[c.name]),
                                              [VarintField(2, SignExtend(c.typ))]))
  {
    var cell := CellOf(c, r);
    if ColumnTypeIsValid(c.typ) {
      ColumnValueRoundTrip(cell);
    } else {
      Int32RoundTrip(c.typ);
      var m1 := NO_COLUMN_VALUE.(name := cell.name);
      var number := VarintField(2, SignExtend(c.typ));
      assert [] + [number] == [number];
      var m2 := m1.(unknown := [number]);
      var m3 := m2.(value := cell.value);
      var groups := cell.Fields();
      assert ApplyAll(ApplyColumnValue, NO_COLUMN_VALUE, groups[0]) == Some(m1);
      assert ApplyAll(ApplyColumnValue, m1, groups[1]) == Some(m2);
      assert ApplyAll(ApplyColumnValue, m2, groups[4]) == Some(m3);
      ApplyGroups(ApplyColumnValue, [NO_COLUMN_VALUE, m1, m2, m2, m2, m3, m3], groups);
      ParseOfGroups(ApplyColumnValue, NO_COLUMN_VALUE, groups);
    }
  }

  /** The rows of a reply show these records: of each all columns of the table, in order, with their values. */
  ghost predicate AreShown(info: TableInfo, records: seq<TableRow>, rows: seq<ResultCodec.Row>) {
    && |rows| == |records|
    && forall k :: 0 <= k < |rows| ==>
         && rows[k].unknown == [] && |rows[k].columns| == |info.columns|
         && forall i :: 0 <= i < |info.columns| ==>
              var c := info.columns[i];
              && c.name in records[k]
              && rows[k].columns[i]
                 == ColumnCodec.ColumnValue(Some(c.name), Some(c.typ), None, None, Some(records[k][c.name]), [])
  }

  /** The rows of a sound table show its records. */
  lemma RowsShowRecords(info: TableInfo, records: seq<TableRow>)
    requires forall r :: r in records ==> forall name :: name in info.ColumnNames() ==> name in r
    ensures AreShown(info, records, RowsOf(info, records))
  {
    forall k, i | 0 <= k < |records| && 0 <= i < |info.columns|
      ensures info.columns[i].name in records[k]
    {
      assert records[k] in records && info.ColumnNames()[i] == info.columns[i].name;
    }
  }

  function RowsOf(info: TableInfo, records: seq<TableRow>): (rows: seq<ResultCodec.Row>)
    ensures |rows| == |records|
  {
    seq(|records|, i requires 0 <= i < |records| => RowOf(info, records[i]))
  }

  /** addRecordToResult. */
  method AddRecordToResult(current: ResultCodec.OperationResult, info: TableInfo, r: TableRow)
    returns (longer: ResultCodec.OperationResult)
    ensures longer == current.(rows := current.rows + [RowOf(info, r)])
    ensures |longer.rows| == |current.rows| + 1 && |longer.rows[|current.rows|].columns| == |info.columns|
    ensures forall i :: 0 <= i < |info.columns| && info.columns[i].name in r ==>
              longer.rows[|current.rows|].columns[i]
              == ColumnCodec.ColumnValue(Some(info.columns[i].name), Some(info.columns[i].typ), None, None,
                                         Some(r[info.columns[i].name]), [])
  {
    var row := ResultCodec.NO_ROW;
    var i := 0;
    while i < |info.columns|
      invariant i <= |info.columns| && row.unknown == []
      invariant row.columns == RowOf(info, r).columns[..i]
    {
      row := row.(columns := row.columns + [CellOf(info.columns[i], r)]);
      i := i + 1;
    }
    assert row == RowOf(info, r);
    longer := current.(rows := current.rows + [row]);
  }

  /** The GET part of the callback: a scan is read to its end, a lookup adds its one record. */
  method AddRecords(info: TableInfo, isScan: bool, records: seq<TableRow>) returns (result: ResultCodec.OperationResult)
    requires !isScan ==> |records| == 1
    ensures result == ResultCodec.OperationResult(RowsOf(info, records), Some(FrameCodec.GET), [])
    ensures (forall r :: r in records ==> forall name :: name in info.ColumnNames() ==> name in r) ==>
              AreShown(info, records, result.rows)
  {
    result := ResultCodec.OperationResult([], Some(FrameCodec.GET), []);
    if isScan {
      var i := 0;
      while i < |records|
        invariant i <= |records|
        invariant result == ResultCodec.OperationResult(RowsOf(info, records[..i]), Some(FrameCodec.GET), [])
      {
        result := AddRecordToResult(result, info, records[i]);
        i := i + 1;
      }
      assert records[..i] == records;
    } else {
      result := AddRecordToResult(result, info, records[0]);
    }
    if forall r :: r in records ==> forall name :: name in info.ColumnNames() ==> name in r {
      RowsShowRecords(info, records);
    }
  }
}
