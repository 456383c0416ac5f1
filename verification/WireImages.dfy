/**
 What the messages are on the wire, byte for byte (Frame.pb.cc, Result.pb.cc, Column.pb.cc and the
 operations): tags, lengths, numbers, and which fields a complete message has.
 */
module WireImages {
  import opened Wrappers
  import opened Wire
  import opened ColumnCodec
  import opened FrameCodec
  import opened ResultCodec
  import opened OperationCodec
  import opened Messages

  // ---------------------------------------------------------------- numbers

  /** Seven bits a byte, the lowest first, and the top bit set in all but the last. */
  lemma {:induction false} VarintImage(n: nat)
    ensures forall i :: 0 <= i < |Varint(n)| ==> (Varint(n)[i] >= 128 <==> i < |Varint(n)| - 1)
    ensures n < 128 ==> Varint(n) == [n]
    ensures 128 <= n < 16384 ==> Varint(n) == [n % 128 + 128, n / 128]
    ensures n >= 128 ==> Varint(n)[0] == n % 128 + 128 && Varint(n)[1..] == Varint(n / 128)
  {
    if n >= 128 {
      VarintImage(n / 128);
      assert forall i :: 0 < i < |Varint(n)| ==> Varint(n)[i] == Varint(n / 128)[i - 1];
    }
  }

  /** Two's complement: what is written for v is v modulo 2^64, and what is read is the same modulo 2^32. */
  lemma TwosComplement(v: int32, u: nat)
    ensures 0 <= SignExtend(v) < 0x1_0000_0000_0000_0000
    ensures SignExtend(v) == v || SignExtend(v) == v + 0x1_0000_0000_0000_0000
    ensures -0x8000_0000 <= AsInt32(u) < 0x8000_0000
    ensures (u - AsInt32(u)) % 0x1_0000_0000 == 0
  {
    var low := u % TWO_32;
    assert u == u / TWO_32 * TWO_32 + low;
    assert AsInt32(u) == low || AsInt32(u) == low - TWO_32;
    assert (u - low) % TWO_32 == 0 && (u - (low - TWO_32)) == (u / TWO_32 + 1) * TWO_32;
  }

  // ---------------------------------------------------------------- fields

  /** Each payload behind the tag and its length. */
  function Prefixed(tag: byte, payloads: seq<Bytes>): Bytes {
    if payloads == [] then [] else [tag] + Varint(|payloads[0]|) + payloads[0] + Prefixed(tag, payloads[1..])
  }

  function OptionalBytes(tag: byte, field: Option<Bytes>): Bytes {
    if field.Some? then Prefixed(tag, [field.value]) else []
  }

  /** An int32 or an enum. */
  function OptionalInt32(tag: byte, field: Option<int32>): Bytes {
    if field.Some? then [tag] + Varint(SignExtend(field.value)) else []
  }

  function OptionalBool(tag: byte, field: Option<bool>): Bytes {
    if field.Some? then [tag, if field.value then 1 else 0] else []
  }

  lemma NoField()
    ensures EmitAll([]) == []
  {
  }

  lemma OneField(t: Token)
    ensures EmitAll([t]) == t.Emit()
  {
    assert [t][1..] == [] && t.Emit() + [] == t.Emit();
  }

  lemma BytesImage(num: nat, field: Option<Bytes>)
    requires 0 < num < 16
    ensures EmitAll(BytesField(num, field)) == OptionalBytes(num * 8 + 2, field)
  {
    if field.Some? {
      OneField(LenField(num, field.value));
      PrefixedOne(num * 8 + 2, field.value);
    }
  }

  lemma PrefixedOne(tag: byte, p: Bytes)
    requires tag < 128
    ensures Prefixed(tag, [p]) == [tag] + Varint(|p|) + p == Varint(tag) + (Varint(|p|) + p)
  {
    assert [p][1..] == [];
    assert [tag] + Varint(|p|) + p + [] == [tag] + Varint(|p|) + p;
    ConcatAssociates([tag], Varint(|p|), p);
  }

  lemma Int32Image(num: nat, field: Option<int32>)
    requires 0 < num < 16
    ensures EmitAll(Int32Field(num, field)) == OptionalInt32(num * 8, field)
  {
    if field.Some? {
      OneField(VarintField(num, SignExtend(field.value)));
    }
  }

  lemma BoolImage(num: nat, field: Option<bool>)
    requires 0 < num < 16
    ensures EmitAll(BoolField(num, field)) == OptionalBool(num * 8, field)
  {
    if field.Some? {
      OneField(VarintField(num, if field.value then 1 else 0));
    }
  }

  function Payloads<C>(bytesOf: C -> Bytes, cs: seq<C>): (payloads: seq<Bytes>)
    ensures |payloads| == |cs|
  {
    seq(|cs|, i requires 0 <= i < |cs| => bytesOf(cs[i]))
  }

  lemma {:induction false} NestedImage<C>(num: nat, bytesOf: C -> Bytes, cs: seq<C>)
    requires 0 < num < 16
    ensures EmitAll(NestedFields(num, bytesOf, cs)) == Prefixed(num * 8 + 2, Payloads(bytesOf, cs))
  {
    if cs != [] {
      assert NestedFields(num, bytesOf, cs)[1..] == NestedFields(num, bytesOf, cs[1..]);
      assert Payloads(bytesOf, cs)[1..] == Payloads(bytesOf, cs[1..]);
      NestedImage(num, bytesOf, cs[1..]);
      PrefixedOne(num * 8 + 2, bytesOf(cs[0]));
    }
  }

  /** The bytes of groups of fields, one after the other. */
  function Joined(parts: seq<Bytes>): Bytes {
    if parts == [] then [] else parts[0] + Joined(parts[1..])
  }

  lemma {:induction false} GroupsImage(groups: seq<seq<Token>>, parts: seq<Bytes>)
    requires |parts| == |groups| && forall i :: 0 <= i < |groups| ==> EmitAll(groups[i]) == parts[i]
    ensures EmitAll(Flatten(groups)) == Joined(parts)
  {
    if groups != [] {
      GroupsImage(groups[1..], parts[1..]);
      EmitAllConcat(groups[0], Flatten(groups[1..]));
    }
  }

  // ---------------------------------------------------------------- messages

  lemma ItemImage(n: FrameItem)
    ensures n.Bytes()
            == Joined([OptionalInt32(8, n.typ), OptionalBytes(18, n.data), OptionalBytes(26, n.identifier),
                       EmitAll(n.unknown)])
  {
    hide EmitAll;
    hide Flatten;
    hide Joined;
    hide Prefixed;
    Int32Image(1, n.typ);
    BytesImage(2, n.data);
    BytesImage(3, n.identifier);
    GroupsImage(n.Fields(), [OptionalInt32(8, n.typ), OptionalBytes(18, n.data), OptionalBytes(26, n.identifier),
                             EmitAll(n.unknown)]);
  }

  lemma FrameImage(n: Frame)
    ensures n.Bytes()
            == Joined([OptionalBytes(10, n.identifier), Prefixed(18, Payloads(ItemBytes, n.items)), EmitAll(n.unknown)])
  {
    hide EmitAll;
    hide Flatten;
    hide Joined;
    hide Prefixed;
    BytesImage(1, n.identifier);
    NestedImage(2, ItemBytes, n.items);
    GroupsImage(n.Fields(), [OptionalBytes(10, n.identifier), Prefixed(18, Payloads(ItemBytes, n.items)),
                             EmitAll(n.unknown)]);
  }

  lemma ColumnValueImage(n: ColumnValue)
    ensures n.Bytes()
            == Joined([OptionalBytes(10, n.name), OptionalInt32(16, n.typ), OptionalBool(24, n.primaryKey),
                       OptionalBool(32, n.distributionKey), OptionalBytes(42, n.value), EmitAll(n.unknown)])
  {
    hide EmitAll;
    hide Flatten;
    hide Joined;
    hide Prefixed;
    BytesImage(1, n.name);
    Int32Image(2, n.typ);
    BoolImage(3, n.primaryKey);
    BoolImage(4, n.distributionKey);
    BytesImage(5, n.value);
    GroupsImage(n.Fields(), [OptionalBytes(10, n.name), OptionalInt32(16, n.typ), OptionalBool(24, n.primaryKey),
                             OptionalBool(32, n.distributionKey), OptionalBytes(42, n.value), EmitAll(n.unknown)]);
  }

  lemma RowImage(n: Row)
    ensures n.Bytes() == Joined([Prefixed(10, Payloads(ColumnValueBytes, n.columns)), EmitAll(n.unknown)])
  {
    NestedImage(1, ColumnValueBytes, n.columns);
    GroupsImage(n.Fields(), [Prefixed(10, Payloads(ColumnValueBytes, n.columns)), EmitAll(n.unknown)]);
  }

  lemma OperationResultImage(n: OperationResult)
    ensures n.Bytes()
            == Joined([Prefixed(10, Payloads(RowBytes, n.rows)), OptionalInt32(16, n.typ), EmitAll(n.unknown)])
  {
    hide EmitAll;
    hide Flatten;
    hide Joined;
    hide Prefixed;
    NestedImage(1, RowBytes, n.rows);
    Int32Image(2, n.typ);
    GroupsImage(n.Fields(), [Prefixed(10, Payloads(RowBytes, n.rows)), OptionalInt32(16, n.typ), EmitAll(n.unknown)]);
  }

  lemma ResultImage(n: Result)
    ensures n.Bytes()
            == Joined([OptionalBytes(10, n.transactionIdentifier),
                       Prefixed(18, Payloads(OperationResultBytes, n.results)), OptionalInt32(24, n.errorCode),
                       OptionalBytes(34, n.errorDescription), EmitAll(n.unknown)])
  {
    hide EmitAll;
    hide Flatten;
    hide Joined;
    hide Prefixed;
    BytesImage(1, n.transactionIdentifier);
    NestedImage(2, OperationResultBytes, n.results);
    Int32Image(3, n.errorCode);
    BytesImage(4, n.errorDescription);
    GroupsImage(n.Fields(),
                [OptionalBytes(10, n.transactionIdentifier), Prefixed(18, Payloads(OperationResultBytes, n.results)),
                 OptionalInt32(24, n.errorCode), OptionalBytes(34, n.errorDescription), EmitAll(n.unknown)]);
  }

  /** SetOperation, GetOperation and, without values, DeleteOperation. */
  lemma ManipulationImage(n: Manipulation)
    ensures n.Bytes()
            == Joined([Prefixed(10, Payloads(StoreInfoBytes, n.storeInfo)),
                       Prefixed(18, Payloads(ColumnValueBytes, n.primaryKey)),
                       Prefixed(26, Payloads(ColumnValueBytes, n.value)), EmitAll(n.unknown)])
  {
    hide EmitAll;
    hide Flatten;
    hide Joined;
    hide Prefixed;
    NestedImage(1, StoreInfoBytes, n.storeInfo);
    NestedImage(2, ColumnValueBytes, n.primaryKey);
    NestedImage(3, ColumnValueBytes, n.value);
    GroupsImage(n.Fields(), [Prefixed(10, Payloads(StoreInfoBytes, n.storeInfo)),
                             Prefixed(18, Payloads(ColumnValueBytes, n.primaryKey)),
                             Prefixed(26, Payloads(ColumnValueBytes, n.value)), EmitAll(n.unknown)]);
  }

  /** CreateStoreOperation and, without columns, DropStoreOperation, down to the store and the columns. */
  lemma StoreDefinitionImage(n: StoreDefinition)
    ensures n.Bytes()
            == Joined([if n.storeInfo.Some? then Prefixed(10, [n.storeInfo.value.Bytes()]) else [],
                       Prefixed(18, Payloads(ColumnInfoBytes, n.columns)), EmitAll(n.unknown)])
  {
    hide EmitAll;
    hide Flatten;
    hide Joined;
    hide Prefixed;
    var info := n.storeInfo;
    NestedImage(2, ColumnInfoBytes, n.columns);
    NoField();
    if info.Some? {
      OneField(LenField(1, info.value.Bytes()));
      PrefixedOne(10, info.value.Bytes());
    }
    GroupsImage(n.Fields(), [if info.Some? then Prefixed(10, [info.value.Bytes()]) else [],
                             Prefixed(18, Payloads(ColumnInfoBytes, n.columns)), EmitAll(n.unknown)]);
  }

  lemma StoreInfoImage(n: StoreInfo)
    ensures n.Bytes() == Joined([OptionalBytes(18, n.storeName), EmitAll(n.unknown)])
  {
    BytesImage(2, n.storeName);
    GroupsImage(n.Fields(), [OptionalBytes(18, n.storeName), EmitAll(n.unknown)]);
  }

  lemma ColumnInfoImage(n: ColumnInfo)
    ensures n.Bytes()
            == Joined([OptionalBytes(10, n.name), OptionalInt32(16, n.typ), OptionalBool(24, n.primaryKey),
                       OptionalBool(32, n.distributionKey), OptionalInt32(48, n.length), EmitAll(n.unknown)])
  {
    hide EmitAll;
    hide Flatten;
    hide Joined;
    hide Prefixed;
    BytesImage(1, n.name);
    Int32Image(2, n.typ);
    BoolImage(3, n.primaryKey);
    BoolImage(4, n.distributionKey);
    Int32Image(6, n.length);
    GroupsImage(n.Fields(), [OptionalBytes(10, n.name), OptionalInt32(16, n.typ), OptionalBool(24, n.primaryKey),
                             OptionalBool(32, n.distributionKey), OptionalInt32(48, n.length), EmitAll(n.unknown)]);
  }

  // ---------------------------------------------------------------- complete messages

  /** A frame is parsed exactly when each of its items has a type and data. */
  lemma FrameIsParsedExactlyWhen(n: Frame)
    requires n.WellFormed() && |n.Bytes()| < TWO_31
    ensures ParseFrame(n.Bytes()).Some? <==> forall i :: i in n.items ==> i.typ.Some? && i.data.Some?
  {
    hide Frame.WellFormed;
    hide Frame.Bytes;
    hide ParsePartialFrame;
    FrameRoundTrip(n);
  }

  /** A Result exactly when it names a transaction, its operations have types and their cells names and values. */
  lemma ResultIsParsedExactlyWhen(n: Result)
    requires n.WellFormed() && |n.Bytes()| < TWO_31
    ensures ParseResult(n.Bytes()).Some?
            <==> && n.transactionIdentifier.Some?
                 && forall o :: o in n.results ==>
                      && o.typ.Some?
                      && forall r :: r in o.rows ==> forall c :: c in r.columns ==> c.name.Some? && c.value.Some?
  {
    hide Result.WellFormed;
    hide Result.Bytes;
    hide ParsePartialResult;
    ResultRoundTrip(n);
  }

  /** A set or get exactly when its stores have names and its columns names and values. */
  lemma OperationIsDecodedExactlyWhen(o: Manipulation)
    requires o.WellFormed() && |o.Bytes()| < TWO_31
    ensures DecodePayload(6, o.Bytes()).Some?
            <==> && (forall s :: s in o.storeInfo ==> s.storeName.Some?)
                 && forall c :: c in o.primaryKey || c in o.value ==> c.name.Some? && c.value.Some?
    ensures DecodePayload(7, o.Bytes()).Some? <==> DecodePayload(6, o.Bytes()).Some?
  {
    hide Manipulation.WellFormed;
    hide Manipulation.Bytes;
    SetOrGetRoundTrip(o);
  }

  /** A new store exactly when it has a name and its columns names and types. */
  lemma DefinitionIsDecodedExactlyWhen(d: StoreDefinition)
    requires d.WellFormed() && |d.Bytes()| < TWO_31
    ensures DecodePayload(4, d.Bytes()).Some?
            <==> && d.storeInfo.Some? && d.storeInfo.value.storeName.Some?
                 && forall c :: c in d.columns ==> c.name.Some? && c.typ.Some?
  {
    hide StoreDefinition.WellFormed;
    hide StoreDefinition.Bytes;
    CreateStoreRoundTrip(d);
  }

  // ---------------------------------------------------------------- enum numbers

  lemma ParsesOneField<M>(apply: Applier<M>, m: M, t: Token)
    requires t.Valid()
    ensures ParseWith(apply, m, t.Emit()) == apply(m, t)
  {
    OneField(t);
    ParseOfEmitted(apply, m, [t]);
    ApplyOne(apply, m, t);
  }

  /** The numbers that are frame types are 1 to 9; any other ends up among the unknown fields. */
  lemma FrameTypesAre(v: int32)
    ensures ParseItem([8] + Varint(SignExtend(v)))
            == Some(if 1 <= v <= 9 then FrameItem(Some(v), None, None, [])
                    else FrameItem(None, None, None, [VarintField(1, SignExtend(v))]))
  {
    hide ParseWith;
    ParsesOneField(ApplyItem, NO_ITEM, VarintField(1, SignExtend(v)));
    Int32RoundTrip(v);
    assert [] + [VarintField(1, SignExtend(v))] == [VarintField(1, SignExtend(v))];
  }

  /** The numbers that are column types. */
  lemma ColumnTypesAre(v: int32)
    ensures var isType := v == 1 || v == 7 || v == 8 || v == 9 || v == 10 || v == 11 || v == 12 || v == 14 || v == 23
                          || v == 24;
            ParseColumnValue([16] + Varint(SignExtend(v)))
            == Some(if isType then ColumnValue(None, Some(v), None, None, None, [])
                    else ColumnValue(None, None, None, None, None, [VarintField(2, SignExtend(v))]))
  {
    hide ParseWith;
    ParsesOneField(ApplyColumnValue, NO_COLUMN_VALUE, VarintField(2, SignExtend(v)));
    Int32RoundTrip(v);
    assert [] + [VarintField(2, SignExtend(v))] == [VarintField(2, SignExtend(v))];
  }
}
