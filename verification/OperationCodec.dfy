/**
 The operations a frame item carries, as values with their wire form
 (Operation.proto, Column.proto, DefinitionOperation.proto, ManipulationOperations.proto).
 */
module OperationCodec {
  import opened Wrappers
  import opened Wire
  import opened ColumnCodec

  // ---------------------------------------------------------------- StoreInfo

  datatype StoreInfo = StoreInfo(storeName: Option<Bytes>, unknown: seq<Token>)
  {
    predicate IsInitialized() { storeName.Some? }

    function Fields(): seq<seq<Token>> { [BytesField(2, storeName), unknown] }

    function Bytes(): Bytes { EmitAll(Flatten(Fields())) }

    ghost predicate WellFormed() {
      forall t :: t in unknown ==> t.Shaped() && !(t.LenField? && t.num == 2)
    }
  }

  const NO_STORE_INFO := StoreInfo(None, [])

  function StoreInfoBytes(s: StoreInfo): Bytes { s.Bytes() }

  function ApplyStoreInfo(m: StoreInfo, t: Token): Option<StoreInfo> {
    match t
    case LenField(2, p) => Some(m.(storeName := Some(p)))
    case _ => Some(m.(unknown := m.unknown + [t]))
  }

  lemma {:induction false} StoreInfoUnknownApply(m: StoreInfo, ts: seq<Token>)
    requires forall t :: t in ts ==> !(t.LenField? && t.num == 2)
    ensures ApplyAll(ApplyStoreInfo, m, ts) == Some(m.(unknown := m.unknown + ts))
    decreases |ts|
  {
    if ts == [] {
      assert m.unknown + ts == m.unknown;
    } else {
      assert ts[0] in ts;
      var m' := m.(unknown := m.unknown + [ts[0]]);
      StoreInfoUnknownApply(m', ts[1..]);
      assert m'.unknown + ts[1..] == m.unknown + ts;
    }
  }

  lemma StoreInfoRoundTrip(n: StoreInfo)
    requires n.WellFormed() && |n.Bytes()| < TWO_31
    ensures ParseWith(ApplyStoreInfo, NO_STORE_INFO, n.Bytes()) == Some(n)
  {
    var m1 := StoreInfo(n.storeName, []);
    StoreInfoUnknownApply(m1, n.unknown);
    assert [] + n.unknown == n.unknown;
    ApplyGroups(ApplyStoreInfo, [NO_STORE_INFO, m1, n], n.Fields());
    ParseOfGroups(ApplyStoreInfo, NO_STORE_INFO, n.Fields());
  }

  // ---------------------------------------------------------------- ColumnInfo

  datatype ColumnInfo = ColumnInfo(
    name: Option<Bytes>,
    typ: Option<int32>,
    primaryKey: Option<bool>,
    distributionKey: Option<bool>,
    length: Option<int32>,
    unknown: seq<Token>)
  {
    predicate IsInitialized() { name.Some? && typ.Some? }

    function Fields(): seq<seq<Token>> {
      [BytesField(1, name), Int32Field(2, typ), BoolField(3, primaryKey),
       BoolField(4, distributionKey), Int32Field(6, length), unknown]
    }

    function Bytes(): Bytes { EmitAll(Flatten(Fields())) }

    ghost predicate WellFormed() {
      && (typ.Some? ==> ColumnTypeIsValid(typ.value))
      && forall t :: t in unknown ==> t.Shaped() && IsUnknownToColumnInfo(t)
    }
  }

  const NO_COLUMN_INFO := ColumnInfo(None, None, None, None, None, [])

  function ColumnInfoBytes(c: ColumnInfo): Bytes { c.Bytes() }

  function ApplyColumnInfo(m: ColumnInfo, t: Token): Option<ColumnInfo> {
    match t
    case LenField(1, p) => Some(m.(name := Some(p)))
    case VarintField(2, v) =>
      var e := AsInt32(v);
      if ColumnTypeIsValid(e) then Some(m.(typ := Some(e)))
      else Some(m.(unknown := m.unknown + [VarintField(2, SignExtend(e))]))
    case VarintField(3, v) => Some(m.(primaryKey := Some(v != 0)))
    case VarintField(4, v) => Some(m.(distributionKey := Some(v != 0)))
    case VarintField(6, v) => Some(m.(length := Some(AsInt32(v))))
    case _ => Some(m.(unknown := m.unknown + [t]))
  }

  predicate IsUnknownToColumnInfo(t: Token) {
    match t
    case LenField(1, _) => false
    case VarintField(2, v) => !ColumnTypeIsValid(AsInt32(v)) && v == SignExtend(AsInt32(v))
    case VarintField(3, _) => false
    case VarintField(4, _) => false
    case VarintField(6, _) => false
    case _ => true
  }

  lemma {:induction false} ColumnInfoUnknownApply(m: ColumnInfo, ts: seq<Token>)
    requires forall t :: t in ts ==> IsUnknownToColumnInfo(t)
    ensures ApplyAll(ApplyColumnInfo, m, ts) == Some(m.(unknown := m.unknown + ts))
    decreases |ts|
  {
    if ts == [] {
      assert m.unknown + ts == m.unknown;
    } else {
      assert ts[0] in ts;
      var m' := m.(unknown := m.unknown + [ts[0]]);
      ColumnInfoUnknownApply(m', ts[1..]);
      assert m'.unknown + ts[1..] == m.unknown + ts;
    }
  }

  lemma ColumnInfoSingularsApply(m: ColumnInfo, n: ColumnInfo)
    requires n.WellFormed()
    ensures ApplyAll(ApplyColumnInfo, m, BytesField(1, n.name)) == Some(m.(name := LastWins(m.name, n.name)))
    ensures ApplyAll(ApplyColumnInfo, m, Int32Field(2, n.typ)) == Some(m.(typ := LastWins(m.typ, n.typ)))
    ensures ApplyAll(ApplyColumnInfo, m, BoolField(3, n.primaryKey))
            == Some(m.(primaryKey := LastWins(m.primaryKey, n.primaryKey)))
    ensures ApplyAll(ApplyColumnInfo, m, BoolField(4, n.distributionKey))
            == Some(m.(distributionKey := LastWins(m.distributionKey, n.distributionKey)))
    ensures ApplyAll(ApplyColumnInfo, m, Int32Field(6, n.length)) == Some(m.(length := LastWins(m.length, n.length)))
  {
    hide ApplyAll;
    NothingApplied(ApplyColumnInfo, m);
    if n.name.Some? { ApplyOne(ApplyColumnInfo, m, LenField(1, n.name.value)); }
    if n.typ.Some? {
      Int32RoundTrip(n.typ.value);
      ApplyOne(ApplyColumnInfo, m, VarintField(2, SignExtend(n.typ.value)));
    }
    if n.primaryKey.Some? { ApplyOne(ApplyColumnInfo, m, VarintField(3, if n.primaryKey.value then 1 else 0)); }
    if n.distributionKey.Some? {
      ApplyOne(ApplyColumnInfo, m, VarintField(4, if n.distributionKey.value then 1 else 0));
    }
    if n.length.Some? {
      Int32RoundTrip(n.length.value);
      ApplyOne(ApplyColumnInfo, m, VarintField(6, SignExtend(n.length.value)));
    }
  }

  lemma ColumnInfoFieldsApply(n: ColumnInfo)
    requires n.WellFormed()
    ensures ApplyAll(ApplyColumnInfo, NO_COLUMN_INFO, Flatten(n.Fields())) == Some(n)
  {
    var m0 := NO_COLUMN_INFO;
    var m1 := m0.(name := n.name);
    var m2 := m1.(typ := n.typ);
    var m3 := m2.(primaryKey := n.primaryKey);
    var m4 := m3.(distributionKey := n.distributionKey);
    var m5 := m4.(length := n.length);
    var groups := n.Fields();
    assert ApplyAll(ApplyColumnInfo, m0, groups[0]) == Some(m1) by { ColumnInfoSingularsApply(m0, n); }
    assert ApplyAll(ApplyColumnInfo, m1, groups[1]) == Some(m2) by { ColumnInfoSingularsApply(m1, n); }
    assert ApplyAll(ApplyColumnInfo, m2, groups[2]) == Some(m3) by { ColumnInfoSingularsApply(m2, n); }
    assert ApplyAll(ApplyColumnInfo, m3, groups[3]) == Some(m4) by { ColumnInfoSingularsApply(m3, n); }
    assert ApplyAll(ApplyColumnInfo, m4, groups[4]) == Some(m5) by { ColumnInfoSingularsApply(m4, n); }
    hide ApplyAll;
    hide ApplyColumnInfo;
    ColumnInfoUnknownApply(m5, n.unknown);
    assert [] + n.unknown == n.unknown;
    ApplyGroups(ApplyColumnInfo, [m0, m1, m2, m3, m4, m5, n], groups);
  }

  lemma ColumnInfoRoundTrip(n: ColumnInfo)
    requires n.WellFormed() && |n.Bytes()| < TWO_31
    ensures ParseWith(ApplyColumnInfo, NO_COLUMN_INFO, n.Bytes()) == Some(n)
  {
    ColumnInfoFieldsApply(n);
    ParseOfGroups(ApplyColumnInfo, NO_COLUMN_INFO, n.Fields());
  }

  // ---------------------------------------------------------------- CreateStoreOperation, DropStoreOperation

  /** A definition of a store; DropStoreOperation is the case without the column field. */
  datatype StoreDefinition = StoreDefinition(
    storeInfo: Option<StoreInfo>,
    columns: seq<ColumnInfo>,
    unknown: seq<Token>)
  {
    predicate IsInitialized() {
      storeInfo.Some? && storeInfo.value.IsInitialized() && forall c :: c in columns ==> c.IsInitialized()
    }

    function Fields(): seq<seq<Token>> {
      [if storeInfo.Some? then [LenField(1, storeInfo.value.Bytes())] else [],
       NestedFields(2, ColumnInfoBytes, columns), unknown]
    }

    function Bytes(): Bytes { EmitAll(Flatten(Fields())) }

    ghost predicate WellFormed() {
      && (storeInfo.Some? ==> storeInfo.value.WellFormed())
      && (forall c :: c in columns ==> c.WellFormed())
      && forall t :: t in unknown ==> t.Shaped() && !(t.LenField? && t.num in {1, 2})
    }
  }

  const NO_STORE_DEFINITION := StoreDefinition(None, [], [])

  /** A singular nested message: parsed on top of the one already there. */
  function ApplyCreateStore(m: StoreDefinition, t: Token): Option<StoreDefinition> {
    match t
    case LenField(1, p) =>
      (match ParseWith(ApplyStoreInfo, m.storeInfo.GetOr(NO_STORE_INFO), p)
       case None => None
       case Some(s) => Some(m.(storeInfo := Some(s))))
    case LenField(2, p) =>
      (match ParseWith(ApplyColumnInfo, NO_COLUMN_INFO, p)
       case None => None
       case Some(c) => Some(m.(columns := m.columns + [c])))
    case _ => Some(m.(unknown := m.unknown + [t]))
  }

  function ApplyDropStore(m: StoreDefinition, t: Token): Option<StoreDefinition> {
    match t
    case LenField(1, p) => ApplyCreateStore(m, t)
    case _ => Some(m.(unknown := m.unknown + [t]))
  }

  lemma {:induction false} StoreDefinitionUnknownApply(m: StoreDefinition, ts: seq<Token>)
    requires forall t :: t in ts ==> !(t.LenField? && t.num in {1, 2})
    ensures ApplyAll(ApplyCreateStore, m, ts) == Some(m.(unknown := m.unknown + ts))
    ensures ApplyAll(ApplyDropStore, m, ts) == Some(m.(unknown := m.unknown + ts))
    decreases |ts|
  {
    if ts == [] {
      assert m.unknown + ts == m.unknown;
    } else {
      assert ts[0] in ts;
      var m' := m.(unknown := m.unknown + [ts[0]]);
      StoreDefinitionUnknownApply(m', ts[1..]);
      assert m'.unknown + ts[1..] == m.unknown + ts;
    }
  }

  lemma CreateStoreColumnApplies(m: StoreDefinition, x: ColumnInfo)
    requires x.WellFormed() && |x.Bytes()| < TWO_31
    ensures ApplyCreateStore(m, LenField(2, ColumnInfoBytes(x))) == Some(m.(columns := m.columns + [x]))
  {
    ColumnInfoRoundTrip(x);
  }

  lemma CreateStoreColumnsApply(m: StoreDefinition, columns: seq<ColumnInfo>)
    requires forall x :: x in columns ==> x.WellFormed() && |x.Bytes()| < TWO_31
    ensures ApplyAll(ApplyCreateStore, m, NestedFields(2, ColumnInfoBytes, columns))
            == Some(m.(columns := m.columns + columns))
  {
    var states := seq(|columns| + 1, k requires 0 <= k <= |columns| => m.(columns := m.columns + columns[..k]));
    forall k | 0 <= k < |columns|
      ensures ApplyCreateStore(states[k], LenField(2, ColumnInfoBytes(columns[k]))) == Some(states[k + 1])
    {
      CreateStoreColumnApplies(states[k], columns[k]);
      PrefixGrows(m.columns, columns, k);
    }
    ApplyEach(ApplyCreateStore, states, NestedFields(2, ColumnInfoBytes, columns));
    assert m.columns + columns[..0] == m.columns && columns[..|columns|] == columns;
  }

  lemma StoreInfoFieldApplies(n: StoreDefinition)
    requires n.WellFormed() && (n.storeInfo.Some? ==> |n.storeInfo.value.Bytes()| < TWO_31)
    ensures ApplyAll(ApplyCreateStore, NO_STORE_DEFINITION, n.Fields()[0]) == Some(StoreDefinition(n.storeInfo, [], []))
    ensures ApplyAll(ApplyDropStore, NO_STORE_DEFINITION, n.Fields()[0]) == Some(StoreDefinition(n.storeInfo, [], []))
  {
    if n.storeInfo.Some? {
      StoreInfoRoundTrip(n.storeInfo.value);
      var t := LenField(1, n.storeInfo.value.Bytes());
      ApplyOne(ApplyCreateStore, NO_STORE_DEFINITION, t);
      ApplyOne(ApplyDropStore, NO_STORE_DEFINITION, t);
    }
  }

  lemma StoreDefinitionSizes(n: StoreDefinition)
    requires AllValid(Flatten(n.Fields()))
    ensures n.storeInfo.Some? ==> |n.storeInfo.value.Bytes()| < TWO_31
    ensures forall c :: c in n.columns ==> |c.Bytes()| < TWO_31
  {
    if n.storeInfo.Some? {
      FlattenContains(n.Fields(), 0, LenField(1, n.storeInfo.value.Bytes()));
    }
    NestedSizes(2, ColumnInfoBytes, n.columns, n.Fields(), 1);
  }

  lemma CreateStoreFieldsApply(n: StoreDefinition)
    requires n.WellFormed()
    requires AllValid(Flatten(n.Fields()))
    ensures ApplyAll(ApplyCreateStore, NO_STORE_DEFINITION, Flatten(n.Fields())) == Some(n)
  {
    StoreDefinitionSizes(n);
    var m1 := StoreDefinition(n.storeInfo, [], []);
    var m2 := StoreDefinition(n.storeInfo, n.columns, []);
    StoreInfoFieldApplies(n);
    CreateStoreColumnsApply(m1, n.columns);
    assert [] + n.columns == n.columns;
    StoreDefinitionUnknownApply(m2, n.unknown);
    assert [] + n.unknown == n.unknown;
    ApplyGroups(ApplyCreateStore, [NO_STORE_DEFINITION, m1, m2, n], n.Fields());
  }

  lemma CreateStoreRoundTrip(n: StoreDefinition)
    requires n.WellFormed() && |n.Bytes()| < TWO_31
    ensures ParseWith(ApplyCreateStore, NO_STORE_DEFINITION, n.Bytes()) == Some(n)
  {
    ParseOfGroups(ApplyCreateStore, NO_STORE_DEFINITION, n.Fields());
    CreateStoreFieldsApply(n);
  }

  lemma DropStoreFieldsApply(n: StoreDefinition)
    requires n.WellFormed() && n.columns == []
    requires AllValid(Flatten(n.Fields()))
    ensures ApplyAll(ApplyDropStore, NO_STORE_DEFINITION, Flatten(n.Fields())) == Some(n)
  {
    StoreDefinitionSizes(n);
    var m1 := StoreDefinition(n.storeInfo, [], []);
    StoreInfoFieldApplies(n);
    StoreDefinitionUnknownApply(m1, n.unknown);
    assert [] + n.unknown == n.unknown;
    ApplyGroups(ApplyDropStore, [NO_STORE_DEFINITION, m1, m1, n], n.Fields());
  }

  lemma DropStoreRoundTrip(n: StoreDefinition)
    requires n.WellFormed() && n.columns == [] && |n.Bytes()| < TWO_31
    ensures ParseWith(ApplyDropStore, NO_STORE_DEFINITION, n.Bytes()) == Some(n)
  {
    ParseOfGroups(ApplyDropStore, NO_STORE_DEFINITION, n.Fields());
    DropStoreFieldsApply(n);
  }

  // ---------------------------------------------------------------- Set, Get and Delete operations

  /** SetOperation and GetOperation; DeleteOperation is the case without the value field. */
  datatype Manipulation = Manipulation(
    storeInfo: seq<StoreInfo>,
    primaryKey: seq<ColumnValue>,
    value: seq<ColumnValue>,
    unknown: seq<Token>)
  {
    predicate IsInitialized() {
      && (forall s :: s in storeInfo ==> s.IsInitialized())
      && (forall c :: c in primaryKey ==> c.IsInitialized())
      && (forall c :: c in value ==> c.IsInitialized())
    }

    function Fields(): seq<seq<Token>> {
      [NestedFields(1, StoreInfoBytes, storeInfo), NestedFields(2, ColumnValueBytes, primaryKey),
       NestedFields(3, ColumnValueBytes, value), unknown]
    }

    function Bytes(): Bytes { EmitAll(Flatten(Fields())) }

    ghost predicate WellFormed() {
      && (forall s :: s in storeInfo ==> s.WellFormed())
      && (forall c :: c in primaryKey ==> c.WellFormed())
      && (forall c :: c in value ==> c.WellFormed())
      && forall t :: t in unknown ==> t.Shaped() && !(t.LenField? && 1 <= t.num <= 3)
    }
  }

  const NO_MANIPULATION := Manipulation([], [], [], [])

  function ApplyDelete(m: Manipulation, t: Token): Option<Manipulation> {
    match t
    case LenField(1, p) =>
      (match ParseWith(ApplyStoreInfo, NO_STORE_INFO, p)
       case None => None
       case Some(s) => Some(m.(storeInfo := m.storeInfo + [s])))
    case LenField(2, p) =>
      (match ParseColumnValue(p)
       case None => None
       case Some(c) => Some(m.(primaryKey := m.primaryKey + [c])))
    case _ => Some(m.(unknown := m.unknown + [t]))
  }

  function ApplySetOrGet(m: Manipulation, t: Token): Option<Manipulation> {
    match t
    case LenField(3, p) =>
      (match ParseColumnValue(p)
       case None => None
       case Some(c) => Some(m.(value := m.value + [c])))
    case _ => ApplyDelete(m, t)
  }

  lemma {:induction false} ManipulationUnknownApply(m: Manipulation, ts: seq<Token>)
    requires forall t :: t in ts ==> !(t.LenField? && 1 <= t.num <= 3)
    ensures ApplyAll(ApplyDelete, m, ts) == Some(m.(unknown := m.unknown + ts))
    ensures ApplyAll(ApplySetOrGet, m, ts) == Some(m.(unknown := m.unknown + ts))
    decreases |ts|
  {
    if ts == [] {
      assert m.unknown + ts == m.unknown;
    } else {
      assert ts[0] in ts;
      var m' := m.(unknown := m.unknown + [ts[0]]);
      ManipulationUnknownApply(m', ts[1..]);
      assert m'.unknown + ts[1..] == m.unknown + ts;
    }
  }

  lemma StoreInfoApplies(m: Manipulation, x: StoreInfo)
    requires x.WellFormed() && |x.Bytes()| < TWO_31
    ensures ApplyDelete(m, LenField(1, StoreInfoBytes(x))) == Some(m.(storeInfo := m.storeInfo + [x]))
    ensures ApplySetOrGet(m, LenField(1, StoreInfoBytes(x))) == Some(m.(storeInfo := m.storeInfo + [x]))
  {
    StoreInfoRoundTrip(x);
  }

  lemma StoreInfosApply(m: Manipulation, infos: seq<StoreInfo>)
    requires forall x :: x in infos ==> x.WellFormed() && |x.Bytes()| < TWO_31
    ensures ApplyAll(ApplyDelete, m, NestedFields(1, StoreInfoBytes, infos))
            == Some(m.(storeInfo := m.storeInfo + infos))
    ensures ApplyAll(ApplySetOrGet, m, NestedFields(1, StoreInfoBytes, infos))
            == Some(m.(storeInfo := m.storeInfo + infos))
  {
    var states := seq(|infos| + 1, k requires 0 <= k <= |infos| => m.(storeInfo := m.storeInfo + infos[..k]));
    forall k | 0 <= k < |infos|
      ensures ApplyDelete(states[k], LenField(1, StoreInfoBytes(infos[k]))) == Some(states[k + 1])
      ensures ApplySetOrGet(states[k], LenField(1, StoreInfoBytes(infos[k]))) == Some(states[k + 1])
    {
      StoreInfoApplies(states[k], infos[k]);
      PrefixGrows(m.storeInfo, infos, k);
    }
    ApplyEach(ApplyDelete, states, NestedFields(1, StoreInfoBytes, infos));
    ApplyEach(ApplySetOrGet, states, NestedFields(1, StoreInfoBytes, infos));
    assert m.storeInfo + infos[..0] == m.storeInfo && infos[..|infos|] == infos;
  }

  lemma KeyApplies(m: Manipulation, x: ColumnValue)
    requires x.WellFormed() && |x.Bytes()| < TWO_31
    ensures ApplyDelete(m, LenField(2, ColumnValueBytes(x))) == Some(m.(primaryKey := m.primaryKey + [x]))
    ensures ApplySetOrGet(m, LenField(2, ColumnValueBytes(x))) == Some(m.(primaryKey := m.primaryKey + [x]))
  {
    ColumnValueRoundTrip(x);
  }

  lemma KeysApply(m: Manipulation, keys: seq<ColumnValue>)
    requires forall x :: x in keys ==> x.WellFormed() && |x.Bytes()| < TWO_31
    ensures ApplyAll(ApplyDelete, m, NestedFields(2, ColumnValueBytes, keys))
            == Some(m.(primaryKey := m.primaryKey + keys))
    ensures ApplyAll(ApplySetOrGet, m, NestedFields(2, ColumnValueBytes, keys))
            == Some(m.(primaryKey := m.primaryKey + keys))
  {
    var states := seq(|keys| + 1, k requires 0 <= k <= |keys| => m.(primaryKey := m.primaryKey + keys[..k]));
    forall k | 0 <= k < |keys|
      ensures ApplyDelete(states[k], LenField(2, ColumnValueBytes(keys[k]))) == Some(states[k + 1])
      ensures ApplySetOrGet(states[k], LenField(2, ColumnValueBytes(keys[k]))) == Some(states[k + 1])
    {
      KeyApplies(states[k], keys[k]);
      PrefixGrows(m.primaryKey, keys, k);
    }
    ApplyEach(ApplyDelete, states, NestedFields(2, ColumnValueBytes, keys));
    ApplyEach(ApplySetOrGet, states, NestedFields(2, ColumnValueBytes, keys));
    assert m.primaryKey + keys[..0] == m.primaryKey && keys[..|keys|] == keys;
  }

  lemma ValueApplies(m: Manipulation, x: ColumnValue)
    requires x.WellFormed() && |x.Bytes()| < TWO_31
    ensures ApplySetOrGet(m, LenField(3, ColumnValueBytes(x))) == Some(m.(value := m.value + [x]))
  {
    ColumnValueRoundTrip(x);
  }

  lemma ValuesApply(m: Manipulation, values: seq<ColumnValue>)
    requires forall x :: x in values ==> x.WellFormed() && |x.Bytes()| < TWO_31
    ensures ApplyAll(ApplySetOrGet, m, NestedFields(3, ColumnValueBytes, values))
            == Some(m.(value := m.value + values))
  {
    var states := seq(|values| + 1, k requires 0 <= k <= |values| => m.(value := m.value + values[..k]));
    forall k | 0 <= k < |values|
      ensures ApplySetOrGet(states[k], LenField(3, ColumnValueBytes(values[k]))) == Some(states[k + 1])
    {
      ValueApplies(states[k], values[k]);
      PrefixGrows(m.value, values, k);
    }
    ApplyEach(ApplySetOrGet, states, NestedFields(3, ColumnValueBytes, values));
    assert m.value + values[..0] == m.value && values[..|values|] == values;
  }

  lemma ManipulationSizes(n: Manipulation)
    requires AllValid(Flatten(n.Fields()))
    ensures forall s :: s in n.storeInfo ==> |s.Bytes()| < TWO_31
    ensures forall c :: c in n.primaryKey ==> |c.Bytes()| < TWO_31
    ensures forall c :: c in n.value ==> |c.Bytes()| < TWO_31
  {
    NestedSizes(1, StoreInfoBytes, n.storeInfo, n.Fields(), 0);
    NestedSizes(2, ColumnValueBytes, n.primaryKey, n.Fields(), 1);
    NestedSizes(3, ColumnValueBytes, n.value, n.Fields(), 2);
  }

  lemma SetOrGetFieldsApply(n: Manipulation)
    requires n.WellFormed()
    requires AllValid(Flatten(n.Fields()))
    ensures ApplyAll(ApplySetOrGet, NO_MANIPULATION, Flatten(n.Fields())) == Some(n)
  {
    ManipulationSizes(n);
    var m1 := Manipulation(n.storeInfo, [], [], []);
    var m2 := Manipulation(n.storeInfo, n.primaryKey, [], []);
    var m3 := Manipulation(n.storeInfo, n.primaryKey, n.value, []);
    StoreInfosApply(NO_MANIPULATION, n.storeInfo);
    KeysApply(m1, n.primaryKey);
    ValuesApply(m2, n.value);
    ManipulationUnknownApply(m3, n.unknown);
    assert [] + n.storeInfo == n.storeInfo && [] + n.primaryKey == n.primaryKey && [] + n.value == n.value;
    assert [] + n.unknown == n.unknown;
    ApplyGroups(ApplySetOrGet, [NO_MANIPULATION, m1, m2, m3, n], n.Fields());
  }

  lemma SetOrGetRoundTrip(n: Manipulation)
    requires n.WellFormed() && |n.Bytes()| < TWO_31
    ensures ParseWith(ApplySetOrGet, NO_MANIPULATION, n.Bytes()) == Some(n)
  {
    ParseOfGroups(ApplySetOrGet, NO_MANIPULATION, n.Fields());
    SetOrGetFieldsApply(n);
  }

  lemma DeleteFieldsApply(n: Manipulation)
    requires n.WellFormed() && n.value == []
    requires AllValid(Flatten(n.Fields()))
    ensures ApplyAll(ApplyDelete, NO_MANIPULATION, Flatten(n.Fields())) == Some(n)
  {
    ManipulationSizes(n);
    var m1 := Manipulation(n.storeInfo, [], [], []);
    var m2 := Manipulation(n.storeInfo, n.primaryKey, [], []);
    StoreInfosApply(NO_MANIPULATION, n.storeInfo);
    KeysApply(m1, n.primaryKey);
    ManipulationUnknownApply(m2, n.unknown);
    assert [] + n.storeInfo == n.storeInfo && [] + n.primaryKey == n.primaryKey && [] + n.unknown == n.unknown;
    ApplyGroups(ApplyDelete, [NO_MANIPULATION, m1, m2, m2, n], n.Fields());
  }

  lemma DeleteRoundTrip(n: Manipulation)
    requires n.WellFormed() && n.value == [] && |n.Bytes()| < TWO_31
    ensures ParseWith(ApplyDelete, NO_MANIPULATION, n.Bytes()) == Some(n)
  {
    ParseOfGroups(ApplyDelete, NO_MANIPULATION, n.Fields());
    DeleteFieldsApply(n);
  }
}
