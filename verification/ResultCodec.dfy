/** Row, OperationResult and Result as values: wire form, parsing and merging (Result.pb.cc). */
module ResultCodec {
  import opened Wrappers
  import opened Wire
  import opened ColumnCodec
  import FrameCodec

  // ---------------------------------------------------------------- Row

  datatype Row = Row(columns: seq<ColumnValue>, unknown: seq<Token>)
  {
    function Merge(from: Row): Row { Row(columns + from.columns, unknown + from.unknown) }

    predicate IsInitialized() { forall c :: c in columns ==> c.IsInitialized() }

    function Fields(): seq<seq<Token>> {
      [NestedFields(1, ColumnValueBytes, columns), unknown]
    }

    function Bytes(): Bytes { EmitAll(Flatten(Fields())) }

    ghost predicate WellFormed() {
      && (forall c :: c in columns ==> c.WellFormed())
      && forall t :: t in unknown ==> t.Shaped() && IsUnknownToRow(t)
    }
  }

  const NO_ROW := Row([], [])

  function RowBytes(r: Row): Bytes { r.Bytes() }

  function ApplyRow(m: Row, t: Token): Option<Row> {
    match t
    case LenField(1, p) =>
      (match ParseColumnValue(p)
       case None => None
       case Some(c) => Some(m.(columns := m.columns + [c])))
    case _ => Some(m.(unknown := m.unknown + [t]))
  }

  function ParseRow(bs: Bytes): Option<Row> {
    ParseWith(ApplyRow, NO_ROW, bs)
  }

  predicate IsUnknownToRow(t: Token) {
    match t
    case LenField(1, _) => false
    case _ => true
  }

  lemma ApplyRowMerges(m: Row, n: Row, t: Token)
    requires ApplyRow(n, t).Some?
    ensures ApplyRow(m.Merge(n), t) == Some(m.Merge(ApplyRow(n, t).value))
  {
    match t
    case LenField(1, p) => AppendAssociates(m.columns, n.columns, ParseColumnValue(p).value);
    case _ => AppendAssociates(m.unknown, n.unknown, t);
  }

  lemma {:induction false} RowUnknownApply(m: Row, ts: seq<Token>)
    requires forall t :: t in ts ==> IsUnknownToRow(t)
    ensures ApplyAll(ApplyRow, m, ts) == Some(m.(unknown := m.unknown + ts))
    decreases |ts|
  {
    if ts == [] {
      assert m.unknown + ts == m.unknown;
    } else {
      assert ts[0] in ts;
      var m' := m.(unknown := m.unknown + [ts[0]]);
      RowUnknownApply(m', ts[1..]);
      assert m'.unknown + ts[1..] == m.unknown + ts;
    }
  }

  lemma RowColumnApplies(m: Row, x: ColumnValue)
    requires x.WellFormed() && |x.Bytes()| < TWO_31
    ensures ApplyRow(m, LenField(1, ColumnValueBytes(x))) == Some(m.(columns := m.columns + [x]))
  {
    ColumnValueRoundTrip(x);
  }

  lemma RowColumnsApply(m: Row, columns: seq<ColumnValue>)
    requires forall x :: x in columns ==> x.WellFormed() && |x.Bytes()| < TWO_31
    ensures ApplyAll(ApplyRow, m, NestedFields(1, ColumnValueBytes, columns))
            == Some(m.(columns := m.columns + columns))
  {
    var states := seq(|columns| + 1, k requires 0 <= k <= |columns| => m.(columns := m.columns + columns[..k]));
    forall k | 0 <= k < |columns|
      ensures ApplyRow(states[k], LenField(1, ColumnValueBytes(columns[k]))) == Some(states[k + 1])
    {
      RowColumnApplies(states[k], columns[k]);
      PrefixGrows(m.columns, columns, k);
    }
    ApplyEach(ApplyRow, states, NestedFields(1, ColumnValueBytes, columns));
    assert m.columns + columns[..0] == m.columns && columns[..|columns|] == columns;
  }

  lemma RowFieldsApply(m: Row, n: Row)
    requires n.WellFormed() && forall c :: c in n.columns ==> |c.Bytes()| < TWO_31
    ensures ApplyAll(ApplyRow, m, Flatten(n.Fields())) == Some(m.Merge(n))
  {
    var m1 := m.(columns := m.columns + n.columns);
    RowColumnsApply(m, n.columns);
    RowUnknownApply(m1, n.unknown);
    ApplyGroups(ApplyRow, [m, m1, m.Merge(n)], n.Fields());
  }

  lemma RowOnTop(m: Row, n: Row)
    requires n.WellFormed() && |n.Bytes()| < TWO_31
    ensures ParseWith(ApplyRow, m, n.Bytes()) == Some(m.Merge(n))
  {
    ParseOfGroups(ApplyRow, m, n.Fields());
    NestedSizes(1, ColumnValueBytes, n.columns, n.Fields(), 0);
    RowFieldsApply(m, n);
  }

  lemma RowRoundTrip(n: Row)
    requires n.WellFormed() && |n.Bytes()| < TWO_31
    ensures ParseRow(n.Bytes()) == Some(n)
  {
    RowOnTop(NO_ROW, n);
    assert NO_ROW.Merge(n) == n;
  }

  lemma {:induction false} RowStaysWellFormed(m: Row, bs: Bytes)
    requires m.WellFormed() && ParseWith(ApplyRow, m, bs).Some?
    ensures ParseWith(ApplyRow, m, bs).value.WellFormed()
    decreases |bs|
  {
    if bs != [] {
      ReadFieldIsValid(bs);
      var (t, rest) := ReadField(bs).value;
      if t.LenField? && t.num == 1 {
        ColumnValueStaysWellFormed(NO_COLUMN_VALUE, t.payload);
      }
      RowStaysWellFormed(ApplyRow(m, t).value, rest);
    }
  }

  lemma {:induction false} RowMergesLater(m: Row, n: Row, bs: Bytes)
    requires ParseWith(ApplyRow, n, bs).Some?
    ensures ParseWith(ApplyRow, m.Merge(n), bs) == Some(m.Merge(ParseWith(ApplyRow, n, bs).value))
    decreases |bs|
  {
    if bs != [] {
      var (t, rest) := ReadField(bs).value;
      ApplyRowMerges(m, n, t);
      RowMergesLater(m, ApplyRow(n, t).value, rest);
    }
  }

  lemma RowConcat(a: Bytes, b: Bytes)
    requires ParseRow(a).Some? && ParseRow(b).Some?
    ensures ParseRow(a + b) == Some(ParseRow(a).value.Merge(ParseRow(b).value))
    ensures var (m, n, both) := (ParseRow(a).value, ParseRow(b).value, ParseRow(a + b).value);
            both.columns == m.columns + n.columns && both.unknown == m.unknown + n.unknown
  {
    var m := ParseRow(a).value;
    ParseConcat(ApplyRow, NO_ROW, a, b);
    RowMergesLater(m, NO_ROW, b);
    assert m.Merge(NO_ROW) == m;
  }

  // ---------------------------------------------------------------- OperationResult

  datatype OperationResult = OperationResult(rows: seq<Row>, typ: Option<int32>, unknown: seq<Token>)
  {
    function Merge(from: OperationResult): OperationResult {
      OperationResult(rows + from.rows, LastWins(typ, from.typ), unknown + from.unknown)
    }

    predicate IsInitialized() { typ.Some? && forall r :: r in rows ==> r.IsInitialized() }

    function Fields(): seq<seq<Token>> {
      [NestedFields(1, RowBytes, rows), Int32Field(2, typ), unknown]
    }

    function Bytes(): Bytes { EmitAll(Flatten(Fields())) }

    ghost predicate WellFormed() {
      && (forall r :: r in rows ==> r.WellFormed())
      && (typ.Some? ==> FrameCodec.ItemTypeIsValid(typ.value))
      && forall t :: t in unknown ==> t.Shaped() && IsUnknownToOperationResult(t)
    }
  }

  const NO_OPERATION_RESULT := OperationResult([], None, [])

  function OperationResultBytes(o: OperationResult): Bytes { o.Bytes() }

  function ApplyOperationResult(m: OperationResult, t: Token): Option<OperationResult> {
    match t
    case LenField(1, p) =>
      (match ParseRow(p)
       case None => None
       case Some(r) => Some(m.(rows := m.rows + [r])))
    case VarintField(2, v) =>
      var e := AsInt32(v);
      if FrameCodec.ItemTypeIsValid(e) then Some(m.(typ := Some(e)))
      else Some(m.(unknown := m.unknown + [VarintField(2, SignExtend(e))]))
    case _ => Some(m.(unknown := m.unknown + [t]))
  }

  function ParseOperationResult(bs: Bytes): Option<OperationResult> {
    ParseWith(ApplyOperationResult, NO_OPERATION_RESULT, bs)
  }

  predicate IsUnknownToOperationResult(t: Token) {
    match t
    case LenField(1, _) => false
    case VarintField(2, v) => !FrameCodec.ItemTypeIsValid(AsInt32(v)) && v == SignExtend(AsInt32(v))
    case _ => true
  }

  lemma ApplyOperationResultMerges(m: OperationResult, n: OperationResult, t: Token)
    requires ApplyOperationResult(n, t).Some?
    ensures ApplyOperationResult(m.Merge(n), t) == Some(m.Merge(ApplyOperationResult(n, t).value))
  {
    match t
    case LenField(1, p) => AppendAssociates(m.rows, n.rows, ParseRow(p).value);
    case VarintField(2, v) => AppendAssociates(m.unknown, n.unknown, VarintField(2, SignExtend(AsInt32(v))));
    case _ => AppendAssociates(m.unknown, n.unknown, t);
  }

  lemma {:induction false} OperationResultUnknownApply(m: OperationResult, ts: seq<Token>)
    requires forall t :: t in ts ==> IsUnknownToOperationResult(t)
    ensures ApplyAll(ApplyOperationResult, m, ts) == Some(m.(unknown := m.unknown + ts))
    decreases |ts|
  {
    if ts == [] {
      assert m.unknown + ts == m.unknown;
    } else {
      assert ts[0] in ts;
      var m' := m.(unknown := m.unknown + [ts[0]]);
      OperationResultUnknownApply(m', ts[1..]);
      assert m'.unknown + ts[1..] == m.unknown + ts;
    }
  }

  lemma OperationResultRowApplies(m: OperationResult, x: Row)
    requires x.WellFormed() && |x.Bytes()| < TWO_31
    ensures ApplyOperationResult(m, LenField(1, RowBytes(x))) == Some(m.(rows := m.rows + [x]))
  {
    RowRoundTrip(x);
  }

  lemma OperationResultRowsApply(m: OperationResult, rows: seq<Row>)
    requires forall x :: x in rows ==> x.WellFormed() && |x.Bytes()| < TWO_31
    ensures ApplyAll(ApplyOperationResult, m, NestedFields(1, RowBytes, rows))
            == Some(m.(rows := m.rows + rows))
  {
    var states := seq(|rows| + 1, k requires 0 <= k <= |rows| => m.(rows := m.rows + rows[..k]));
    forall k | 0 <= k < |rows|
      ensures ApplyOperationResult(states[k], LenField(1, RowBytes(rows[k]))) == Some(states[k + 1])
    {
      OperationResultRowApplies(states[k], rows[k]);
      PrefixGrows(m.rows, rows, k);
    }
    ApplyEach(ApplyOperationResult, states, NestedFields(1, RowBytes, rows));
    assert m.rows + rows[..0] == m.rows && rows[..|rows|] == rows;
  }

  lemma OperationResultTypeApplies(m: OperationResult, n: OperationResult)
    requires n.WellFormed()
    ensures ApplyAll(ApplyOperationResult, m, Int32Field(2, n.typ)) == Some(m.(typ := LastWins(m.typ, n.typ)))
  {
  }

  lemma OperationResultFieldsApply(m: OperationResult, n: OperationResult)
    requires n.WellFormed() && forall r :: r in n.rows ==> |r.Bytes()| < TWO_31
    ensures ApplyAll(ApplyOperationResult, m, Flatten(n.Fields())) == Some(m.Merge(n))
  {
    var m1 := m.(rows := m.rows + n.rows);
    var m2 := m1.(typ := LastWins(m.typ, n.typ));
    OperationResultRowsApply(m, n.rows);
    OperationResultTypeApplies(m1, n);
    OperationResultUnknownApply(m2, n.unknown);
    ApplyGroups(ApplyOperationResult, [m, m1, m2, m.Merge(n)], n.Fields());
  }

  lemma OperationResultOnTop(m: OperationResult, n: OperationResult)
    requires n.WellFormed() && |n.Bytes()| < TWO_31
    ensures ParseWith(ApplyOperationResult, m, n.Bytes()) == Some(m.Merge(n))
  {
    ParseOfGroups(ApplyOperationResult, m, n.Fields());
    NestedSizes(1, RowBytes, n.rows, n.Fields(), 0);
    OperationResultFieldsApply(m, n);
  }

  lemma OperationResultRoundTrip(n: OperationResult)
    requires n.WellFormed() && |n.Bytes()| < TWO_31
    ensures ParseOperationResult(n.Bytes()) == Some(n)
  {
    OperationResultOnTop(NO_OPERATION_RESULT, n);
    assert NO_OPERATION_RESULT.Merge(n) == n;
  }

  lemma {:induction false} OperationResultStaysWellFormed(m: OperationResult, bs: Bytes)
    requires m.WellFormed() && ParseWith(ApplyOperationResult, m, bs).Some?
    ensures ParseWith(ApplyOperationResult, m, bs).value.WellFormed()
    decreases |bs|
  {
    if bs != [] {
      ReadFieldIsValid(bs);
      var (t, rest) := ReadField(bs).value;
      if t.VarintField? {
        Int32RoundTrip(AsInt32(t.value));
      } else if t.LenField? && t.num == 1 {
        RowStaysWellFormed(NO_ROW, t.payload);
      }
      OperationResultStaysWellFormed(ApplyOperationResult(m, t).value, rest);
    }
  }

  lemma {:induction false} OperationResultMergesLater(m: OperationResult, n: OperationResult, bs: Bytes)
    requires ParseWith(ApplyOperationResult, n, bs).Some?
    ensures ParseWith(ApplyOperationResult, m.Merge(n), bs)
              == Some(m.Merge(ParseWith(ApplyOperationResult, n, bs).value))
    decreases |bs|
  {
    if bs != [] {
      var (t, rest) := ReadField(bs).value;
      ApplyOperationResultMerges(m, n, t);
      OperationResultMergesLater(m, ApplyOperationResult(n, t).value, rest);
    }
  }

  lemma OperationResultConcat(a: Bytes, b: Bytes)
    requires ParseOperationResult(a).Some? && ParseOperationResult(b).Some?
    ensures ParseOperationResult(a + b) == Some(ParseOperationResult(a).value.Merge(ParseOperationResult(b).value))
    ensures var (m, n, both) := (ParseOperationResult(a).value, ParseOperationResult(b).value,
                                 ParseOperationResult(a + b).value);
            && both.typ == (if n.typ.Some? then n.typ else m.typ)
            && both.rows == m.rows + n.rows && both.unknown == m.unknown + n.unknown
  {
    var m := ParseOperationResult(a).value;
    ParseConcat(ApplyOperationResult, NO_OPERATION_RESULT, a, b);
    OperationResultMergesLater(m, NO_OPERATION_RESULT, b);
    assert m.Merge(NO_OPERATION_RESULT) == m;
  }

  // ---------------------------------------------------------------- Result

  datatype Result = Result(
    transactionIdentifier: Option<Bytes>,
    results: seq<OperationResult>,
    errorCode: Option<int32>,
    errorDescription: Option<Bytes>,
    unknown: seq<Token>)
  {
    function Merge(from: Result): Result {
      Result(
        LastWins(transactionIdentifier, from.transactionIdentifier),
        results + from.results,
        LastWins(errorCode, from.errorCode),
        LastWins(errorDescription, from.errorDescription),
        unknown + from.unknown)
    }

    predicate IsInitialized() {
      transactionIdentifier.Some? && forall o :: o in results ==> o.IsInitialized()
    }

    function Fields(): seq<seq<Token>> {
      [BytesField(1, transactionIdentifier), NestedFields(2, OperationResultBytes, results),
       Int32Field(3, errorCode), BytesField(4, errorDescription), unknown]
    }

    function Bytes(): Bytes { EmitAll(Flatten(Fields())) }

    ghost predicate WellFormed() {
      && (forall o :: o in results ==> o.WellFormed())
      && forall t :: t in unknown ==> t.Shaped() && IsUnknownToResult(t)
    }
  }

  const NO_RESULT := Result(None, [], None, None, [])

  function ApplyResult(m: Result, t: Token): Option<Result> {
    match t
    case LenField(1, p) => Some(m.(transactionIdentifier := Some(p)))
    case LenField(2, p) =>
      (match ParseOperationResult(p)
       case None => None
       case Some(o) => Some(m.(results := m.results + [o])))
    case VarintField(3, v) => Some(m.(errorCode := Some(AsInt32(v))))
    case LenField(4, p) => Some(m.(errorDescription := Some(p)))
    case _ => Some(m.(unknown := m.unknown + [t]))
  }

  function ParsePartialResult(bs: Bytes): Option<Result> {
    ParseWith(ApplyResult, NO_RESULT, bs)
  }

  /** ParseFromString: the bytes parse and every required field was there. */
  function ParseResult(bs: Bytes): Option<Result> {
    match ParsePartialResult(bs)
    case None => None
    case Some(r) => if r.IsInitialized() then Some(r) else None
  }

  predicate IsUnknownToResult(t: Token) {
    match t
    case LenField(1, _) => false
    case LenField(2, _) => false
    case VarintField(3, _) => false
    case LenField(4, _) => false
    case _ => true
  }

  lemma ApplyResultMerges(m: Result, n: Result, t: Token)
    requires ApplyResult(n, t).Some?
    ensures ApplyResult(m.Merge(n), t) == Some(m.Merge(ApplyResult(n, t).value))
  {
    match t
    case LenField(1, _) =>
    case LenField(2, p) => AppendAssociates(m.results, n.results, ParseOperationResult(p).value);
    case VarintField(3, _) =>
    case LenField(4, _) =>
    case _ => AppendAssociates(m.unknown, n.unknown, t);
  }

  lemma {:induction false} ResultUnknownApply(m: Result, ts: seq<Token>)
    requires forall t :: t in ts ==> IsUnknownToResult(t)
    ensures ApplyAll(ApplyResult, m, ts) == Some(m.(unknown := m.unknown + ts))
    decreases |ts|
  {
    if ts == [] {
      assert m.unknown + ts == m.unknown;
    } else {
      assert ts[0] in ts;
      var m' := m.(unknown := m.unknown + [ts[0]]);
      ResultUnknownApply(m', ts[1..]);
      assert m'.unknown + ts[1..] == m.unknown + ts;
    }
  }

  lemma ResultResultApplies(m: Result, x: OperationResult)
    requires x.WellFormed() && |x.Bytes()| < TWO_31
    ensures ApplyResult(m, LenField(2, OperationResultBytes(x))) == Some(m.(results := m.results + [x]))
  {
    OperationResultRoundTrip(x);
  }

  lemma ResultResultsApply(m: Result, results: seq<OperationResult>)
    requires forall x :: x in results ==> x.WellFormed() && |x.Bytes()| < TWO_31
    ensures ApplyAll(ApplyResult, m, NestedFields(2, OperationResultBytes, results))
            == Some(m.(results := m.results + results))
  {
    var states := seq(|results| + 1, k requires 0 <= k <= |results| => m.(results := m.results + results[..k]));
    forall k | 0 <= k < |results|
      ensures ApplyResult(states[k], LenField(2, OperationResultBytes(results[k]))) == Some(states[k + 1])
    {
      ResultResultApplies(states[k], results[k]);
      PrefixGrows(m.results, results, k);
    }
    ApplyEach(ApplyResult, states, NestedFields(2, OperationResultBytes, results));
    assert m.results + results[..0] == m.results && results[..|results|] == results;
  }

  lemma ResultSingularsApply(m: Result, n: Result)
    ensures ApplyAll(ApplyResult, m, BytesField(1, n.transactionIdentifier))
            == Some(m.(transactionIdentifier := LastWins(m.transactionIdentifier, n.transactionIdentifier)))
    ensures ApplyAll(ApplyResult, m, Int32Field(3, n.errorCode))
            == Some(m.(errorCode := LastWins(m.errorCode, n.errorCode)))
    ensures ApplyAll(ApplyResult, m, BytesField(4, n.errorDescription))
            == Some(m.(errorDescription := LastWins(m.errorDescription, n.errorDescription)))
  {
  }

  lemma ResultFieldsApply(m: Result, n: Result)
    requires n.WellFormed() && forall o :: o in n.results ==> |o.Bytes()| < TWO_31
    ensures ApplyAll(ApplyResult, m, Flatten(n.Fields())) == Some(m.Merge(n))
  {
    var m1 := m.(transactionIdentifier := LastWins(m.transactionIdentifier, n.transactionIdentifier));
    var m2 := m1.(results := m.results + n.results);
    var m3 := m2.(errorCode := LastWins(m.errorCode, n.errorCode));
    var m4 := m3.(errorDescription := LastWins(m.errorDescription, n.errorDescription));
    var groups := n.Fields();
    assert ApplyAll(ApplyResult, m, groups[0]) == Some(m1) by { ResultSingularsApply(m, n); }
    ResultResultsApply(m1, n.results);
    assert ApplyAll(ApplyResult, m2, groups[2]) == Some(m3) by { ResultSingularsApply(m2, n); }
    assert ApplyAll(ApplyResult, m3, groups[3]) == Some(m4) by { ResultSingularsApply(m3, n); }
    ResultUnknownApply(m4, n.unknown);
    ApplyGroups(ApplyResult, [m, m1, m2, m3, m4, m.Merge(n)], groups);
  }

  lemma ResultOnTop(m: Result, n: Result)
    requires n.WellFormed() && |n.Bytes()| < TWO_31
    ensures ParseWith(ApplyResult, m, n.Bytes()) == Some(m.Merge(n))
  {
    ParseOfGroups(ApplyResult, m, n.Fields());
    NestedSizes(2, OperationResultBytes, n.results, n.Fields(), 1);
    ResultFieldsApply(m, n);
  }

  /** Every Result tree comes back from its bytes: presence, order and negative error codes included. */
  lemma ResultRoundTrip(n: Result)
    requires n.WellFormed() && |n.Bytes()| < TWO_31
    ensures ParsePartialResult(n.Bytes()) == Some(n)
    ensures ParseResult(n.Bytes()) == if n.IsInitialized() then Some(n) else None
  {
    ResultOnTop(NO_RESULT, n);
    assert NO_RESULT.Merge(n) == n;
  }

  lemma {:induction false} ResultMergesLater(m: Result, n: Result, bs: Bytes)
    requires ParseWith(ApplyResult, n, bs).Some?
    ensures ParseWith(ApplyResult, m.Merge(n), bs) == Some(m.Merge(ParseWith(ApplyResult, n, bs).value))
    decreases |bs|
  {
    if bs != [] {
      var (t, rest) := ReadField(bs).value;
      ApplyResultMerges(m, n, t);
      ResultMergesLater(m, ApplyResult(n, t).value, rest);
    }
  }

  /** Concatenation is merge, for all byte strings that parse. */
  lemma ResultConcat(a: Bytes, b: Bytes)
    requires ParsePartialResult(a).Some? && ParsePartialResult(b).Some?
    ensures ParsePartialResult(a + b) == Some(ParsePartialResult(a).value.Merge(ParsePartialResult(b).value))
    ensures var (m, n, both) := (ParsePartialResult(a).value, ParsePartialResult(b).value,
                                 ParsePartialResult(a + b).value);
            && both.transactionIdentifier
               == (if n.transactionIdentifier.Some? then n.transactionIdentifier else m.transactionIdentifier)
            && both.errorCode == (if n.errorCode.Some? then n.errorCode else m.errorCode)
            && both.errorDescription == (if n.errorDescription.Some? then n.errorDescription else m.errorDescription)
            && both.results == m.results + n.results && both.unknown == m.unknown + n.unknown
  {
    var m := ParsePartialResult(a).value;
    ParseConcat(ApplyResult, NO_RESULT, a, b);
    ResultMergesLater(m, NO_RESULT, b);
    assert m.Merge(NO_RESULT) == m;
  }

  lemma {:induction false} ResultStaysWellFormed(m: Result, bs: Bytes)
    requires m.WellFormed() && ParseWith(ApplyResult, m, bs).Some?
    ensures ParseWith(ApplyResult, m, bs).value.WellFormed()
    decreases |bs|
  {
    if bs != [] {
      ReadFieldIsValid(bs);
      var (t, rest) := ReadField(bs).value;
      if t.LenField? && t.num == 2 {
        OperationResultStaysWellFormed(NO_OPERATION_RESULT, t.payload);
      }
      ResultStaysWellFormed(ApplyResult(m, t).value, rest);
    }
  }
}
