/** ColumnValue as a value: what it is on the wire, how it parses and merges (Column.pb.cc). */
module ColumnCodec {
  import opened Wrappers
  import opened Wire

  predicate ColumnTypeIsValid(v: int) {
    v == 1 || 7 <= v <= 12 || v == 14 || v == 23 || v == 24
  }

  datatype ColumnValue = ColumnValue(
    name: Option<Bytes>,
    typ: Option<int32>,
    primaryKey: Option<bool>,
    distributionKey: Option<bool>,
    value: Option<Bytes>,
    unknown: seq<Token>)
  {
    /** MergeFrom: singular fields of `from` win, unknown fields are appended. */
    function Merge(from: ColumnValue): ColumnValue {
      ColumnValue(
        LastWins(name, from.name),
        LastWins(typ, from.typ),
        LastWins(primaryKey, from.primaryKey),
        LastWins(distributionKey, from.distributionKey),
        LastWins(value, from.value),
        unknown + from.unknown)
    }

    predicate IsInitialized() { name.Some? && value.Some? }

    /** The fields in the order the serialiser writes them. */
    function Fields(): seq<seq<Token>> {
      [BytesField(1, name), Int32Field(2, typ), BoolField(3, primaryKey),
       BoolField(4, distributionKey), BytesField(5, value), unknown]
    }

    function Bytes(): Bytes { EmitAll(Flatten(Fields())) }

    /** Only values that the setters and the parser can produce. */
    ghost predicate WellFormed() {
      && (typ.Some? ==> ColumnTypeIsValid(typ.value))
      && forall t :: t in unknown ==> t.Shaped() && IsUnknownToColumnValue(t)
    }
  }

  const NO_COLUMN_VALUE := ColumnValue(None, None, None, None, None, [])

  function ColumnValueBytes(c: ColumnValue): Bytes { c.Bytes() }

  /** What the switch of MergePartialFromCodedStream does with one field. */
  function ApplyColumnValue(m: ColumnValue, t: Token): Option<ColumnValue> {
    match t
    case LenField(1, p) => Some(m.(name := Some(p)))
    case VarintField(2, v) =>
      var e := AsInt32(v);
      if ColumnTypeIsValid(e) then Some(m.(typ := Some(e)))
      else Some(m.(unknown := m.unknown + [VarintField(2, SignExtend(e))]))
    case VarintField(3, v) => Some(m.(primaryKey := Some(v != 0)))
    case VarintField(4, v) => Some(m.(distributionKey := Some(v != 0)))
    case LenField(5, p) => Some(m.(value := Some(p)))
    case _ => Some(m.(unknown := m.unknown + [t]))
  }

  function ParseColumnValue(bs: Bytes): Option<ColumnValue> {
    ParseWith(ApplyColumnValue, NO_COLUMN_VALUE, bs)
  }

  /** A field the switch files under the unknown fields, unchanged. */
  predicate IsUnknownToColumnValue(t: Token) {
    match t
    case LenField(1, _) => false
    case VarintField(2, v) => !ColumnTypeIsValid(AsInt32(v)) && v == SignExtend(AsInt32(v))
    case VarintField(3, _) => false
    case VarintField(4, _) => false
    case LenField(5, _) => false
    case _ => true
  }

  lemma ApplyColumnValueMerges(m: ColumnValue, n: ColumnValue, t: Token)
    ensures ApplyColumnValue(m.Merge(n), t) == Some(m.Merge(ApplyColumnValue(n, t).value))
  {
    match t
    case LenField(1, _) =>
    case VarintField(2, v) => AppendAssociates(m.unknown, n.unknown, VarintField(2, SignExtend(AsInt32(v))));
    case VarintField(3, _) =>
    case VarintField(4, _) =>
    case LenField(5, _) =>
    case _ => AppendAssociates(m.unknown, n.unknown, t);
  }

  lemma {:induction false} ColumnValueUnknownApply(m: ColumnValue, ts: seq<Token>)
    requires forall t :: t in ts ==> IsUnknownToColumnValue(t)
    ensures ApplyAll(ApplyColumnValue, m, ts) == Some(m.(unknown := m.unknown + ts))
    decreases |ts|
  {
    if ts == [] {
      assert m.unknown + ts == m.unknown;
    } else {
      assert ts[0] in ts;
      var m' := m.(unknown := m.unknown + [ts[0]]);
      ColumnValueUnknownApply(m', ts[1..]);
      assert m'.unknown + ts[1..] == m.unknown + ts;
    }
  }

  lemma ColumnValueSingularsApply(m: ColumnValue, n: ColumnValue)
    requires n.WellFormed()
    ensures ApplyAll(ApplyColumnValue, m, BytesField(1, n.name)) == Some(m.(name := LastWins(m.name, n.name)))
    ensures ApplyAll(ApplyColumnValue, m, Int32Field(2, n.typ)) == Some(m.(typ := LastWins(m.typ, n.typ)))
    ensures ApplyAll(ApplyColumnValue, m, BoolField(3, n.primaryKey))
            == Some(m.(primaryKey := LastWins(m.primaryKey, n.primaryKey)))
    ensures ApplyAll(ApplyColumnValue, m, BoolField(4, n.distributionKey))
            == Some(m.(distributionKey := LastWins(m.distributionKey, n.distributionKey)))
    ensures ApplyAll(ApplyColumnValue, m, BytesField(5, n.value)) == Some(m.(value := LastWins(m.value, n.value)))
  {
    hide ApplyAll;
    NothingApplied(ApplyColumnValue, m);
    if n.name.Some? { ApplyOne(ApplyColumnValue, m, LenField(1, n.name.value)); }
    if n.typ.Some? {
      Int32RoundTrip(n.typ.value);
      ApplyOne(ApplyColumnValue, m, VarintField(2, SignExtend(n.typ.value)));
    }
    if n.primaryKey.Some? { ApplyOne(ApplyColumnValue, m, VarintField(3, if n.primaryKey.value then 1 else 0)); }
    if n.distributionKey.Some? {
      ApplyOne(ApplyColumnValue, m, VarintField(4, if n.distributionKey.value then 1 else 0));
    }
    if n.value.Some? { ApplyOne(ApplyColumnValue, m, LenField(5, n.value.value)); }
  }

  lemma ColumnValueFieldsApply(m: ColumnValue, n: ColumnValue)
    requires n.WellFormed()
    ensures ApplyAll(ApplyColumnValue, m, Flatten(n.Fields())) == Some(m.Merge(n))
  {
    var m1 := m.(name := LastWins(m.name, n.name));
    var m2 := m1.(typ := LastWins(m.typ, n.typ));
    var m3 := m2.(primaryKey := LastWins(m.primaryKey, n.primaryKey));
    var m4 := m3.(distributionKey := LastWins(m.distributionKey, n.distributionKey));
    var m5 := m4.(value := LastWins(m.value, n.value));
    var groups := n.Fields();
    assert ApplyAll(ApplyColumnValue, m, groups[0]) == Some(m1) by { ColumnValueSingularsApply(m, n); }
    assert ApplyAll(ApplyColumnValue, m1, groups[1]) == Some(m2) by { ColumnValueSingularsApply(m1, n); }
    assert ApplyAll(ApplyColumnValue, m2, groups[2]) == Some(m3) by { ColumnValueSingularsApply(m2, n); }
    assert ApplyAll(ApplyColumnValue, m3, groups[3]) == Some(m4) by { ColumnValueSingularsApply(m3, n); }
    assert ApplyAll(ApplyColumnValue, m4, groups[4]) == Some(m5) by { ColumnValueSingularsApply(m4, n); }
    ColumnValueUnknownApply(m5, n.unknown);
    ApplyGroups(ApplyColumnValue, [m, m1, m2, m3, m4, m5, m.Merge(n)], groups);
  }

  /** Parsing what n writes, on top of m, merges n into m. */
  lemma ColumnValueOnTop(m: ColumnValue, n: ColumnValue)
    requires n.WellFormed() && |n.Bytes()| < TWO_31
    ensures ParseWith(ApplyColumnValue, m, n.Bytes()) == Some(m.Merge(n))
  {
    ColumnValueFieldsApply(m, n);
    ParseOfGroups(ApplyColumnValue, m, n.Fields());
  }

  lemma ColumnValueRoundTrip(n: ColumnValue)
    requires n.WellFormed() && |n.Bytes()| < TWO_31
    ensures ParseColumnValue(n.Bytes()) == Some(n)
  {
    ColumnValueOnTop(NO_COLUMN_VALUE, n);
    assert NO_COLUMN_VALUE.Merge(n) == n;
  }

  lemma {:induction false} ColumnValueMergesLater(m: ColumnValue, n: ColumnValue, bs: Bytes)
    requires ParseWith(ApplyColumnValue, n, bs).Some?
    ensures ParseWith(ApplyColumnValue, m.Merge(n), bs)
            == Some(m.Merge(ParseWith(ApplyColumnValue, n, bs).value))
    decreases |bs|
  {
    if bs != [] {
      var (t, rest) := ReadField(bs).value;
      ApplyColumnValueMerges(m, n, t);
      ColumnValueMergesLater(m, ApplyColumnValue(n, t).value, rest);
    }
  }

  /** Concatenation is merge, for all byte strings that parse. */
  lemma ColumnValueConcat(a: Bytes, b: Bytes)
    requires ParseColumnValue(a).Some? && ParseColumnValue(b).Some?
    ensures ParseColumnValue(a + b) == Some(ParseColumnValue(a).value.Merge(ParseColumnValue(b).value))
    ensures var (m, n, both) := (ParseColumnValue(a).value, ParseColumnValue(b).value, ParseColumnValue(a + b).value);
            && both.name == (if n.name.Some? then n.name else m.name)
            && both.typ == (if n.typ.Some? then n.typ else m.typ)
            && both.primaryKey == (if n.primaryKey.Some? then n.primaryKey else m.primaryKey)
            && both.distributionKey == (if n.distributionKey.Some? then n.distributionKey else m.distributionKey)
            && both.value == (if n.value.Some? then n.value else m.value)
            && both.unknown == m.unknown + n.unknown
  {
    var m := ParseColumnValue(a).value;
    ParseConcat(ApplyColumnValue, NO_COLUMN_VALUE, a, b);
    ColumnValueMergesLater(m, NO_COLUMN_VALUE, b);
    assert m.Merge(NO_COLUMN_VALUE) == m;
  }

  /** The parser only builds well-formed values, so whatever parses can be written and read again. */
  lemma {:induction false} ColumnValueStaysWellFormed(m: ColumnValue, bs: Bytes)
    requires m.WellFormed() && ParseWith(ApplyColumnValue, m, bs).Some?
    ensures ParseWith(ApplyColumnValue, m, bs).value.WellFormed()
    decreases |bs|
  {
    if bs != [] {
      ReadFieldIsValid(bs);
      var (t, rest) := ReadField(bs).value;
      if t.VarintField? {
        Int32RoundTrip(AsInt32(t.value));
      }
      ColumnValueStaysWellFormed(ApplyColumnValue(m, t).value, rest);
    }
  }
}
