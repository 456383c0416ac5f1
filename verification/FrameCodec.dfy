/** FrameItem and Frame as values: what they are on the wire, how they parse and merge (Frame.pb.cc). */
module FrameCodec {
  import opened Wrappers
  import opened Wire

  const NONE: int32 := 1
  const CREATE_DATABASE: int32 := 2
  const DROP_DATABASE: int32 := 3
  const CREATE_STORE: int32 := 4
  const DROP_STORE: int32 := 5
  const SET: int32 := 6
  const GET: int32 := 7
  const DELETE: int32 := 8
  const SERVER_RESPONSE: int32 := 9

  predicate ItemTypeIsValid(v: int) { 1 <= v <= 9 }

  // ---------------------------------------------------------------- FrameItem

  datatype FrameItem = FrameItem(
    typ: Option<int32>,
    data: Option<Bytes>,
    identifier: Option<Bytes>,
    unknown: seq<Token>)
  {
    function Merge(from: FrameItem): FrameItem {
      FrameItem(
        LastWins(typ, from.typ),
        LastWins(data, from.data),
        LastWins(identifier, from.identifier),
        unknown + from.unknown)
    }

    predicate IsInitialized() { typ.Some? && data.Some? }

    function Fields(): seq<seq<Token>> {
      [Int32Field(1, typ), BytesField(2, data), BytesField(3, identifier), unknown]
    }

    function Bytes(): Bytes { EmitAll(Flatten(Fields())) }

    ghost predicate WellFormed() {
      && (typ.Some? ==> ItemTypeIsValid(typ.value))
      && forall t :: t in unknown ==> t.Shaped() && IsUnknownToItem(t)
    }
  }

  const NO_ITEM := FrameItem(None, None, None, [])

  function ItemBytes(i: FrameItem): Bytes { i.Bytes() }

  function ApplyItem(m: FrameItem, t: Token): Option<FrameItem> {
    match t
    case VarintField(1, v) =>
      var e := AsInt32(v);
      if ItemTypeIsValid(e) then Some(m.(typ := Some(e)))
      else Some(m.(unknown := m.unknown + [VarintField(1, SignExtend(e))]))
    case LenField(2, p) => Some(m.(data := Some(p)))
    case LenField(3, p) => Some(m.(identifier := Some(p)))
    case _ => Some(m.(unknown := m.unknown + [t]))
  }

  function ParseItem(bs: Bytes): Option<FrameItem> {
    ParseWith(ApplyItem, NO_ITEM, bs)
  }

  predicate IsUnknownToItem(t: Token) {
    match t
    case VarintField(1, v) => !ItemTypeIsValid(AsInt32(v)) && v == SignExtend(AsInt32(v))
    case LenField(2, _) => false
    case LenField(3, _) => false
    case _ => true
  }

  lemma ApplyItemMerges(m: FrameItem, n: FrameItem, t: Token)
    ensures ApplyItem(m.Merge(n), t) == Some(m.Merge(ApplyItem(n, t).value))
  {
    match t
    case VarintField(1, v) => AppendAssociates(m.unknown, n.unknown, VarintField(1, SignExtend(AsInt32(v))));
    case LenField(2, _) =>
    case LenField(3, _) =>
    case _ => AppendAssociates(m.unknown, n.unknown, t);
  }

  lemma {:induction false} ItemUnknownApply(m: FrameItem, ts: seq<Token>)
    requires forall t :: t in ts ==> IsUnknownToItem(t)
    ensures ApplyAll(ApplyItem, m, ts) == Some(m.(unknown := m.unknown + ts))
    decreases |ts|
  {
    if ts == [] {
      assert m.unknown + ts == m.unknown;
    } else {
      assert ts[0] in ts;
      var m' := m.(unknown := m.unknown + [ts[0]]);
      ItemUnknownApply(m', ts[1..]);
      assert m'.unknown + ts[1..] == m.unknown + ts;
    }
  }

  lemma ItemSingularsApply(m: FrameItem, n: FrameItem)
    requires n.WellFormed()
    ensures ApplyAll(ApplyItem, m, Int32Field(1, n.typ)) == Some(m.(typ := LastWins(m.typ, n.typ)))
    ensures ApplyAll(ApplyItem, m, BytesField(2, n.data)) == Some(m.(data := LastWins(m.data, n.data)))
    ensures ApplyAll(ApplyItem, m, BytesField(3, n.identifier))
            == Some(m.(identifier := LastWins(m.identifier, n.identifier)))
  {
  }

  lemma ItemFieldsApply(m: FrameItem, n: FrameItem)
    requires n.WellFormed()
    ensures ApplyAll(ApplyItem, m, Flatten(n.Fields())) == Some(m.Merge(n))
  {
    var m1 := m.(typ := LastWins(m.typ, n.typ));
    var m2 := m1.(data := LastWins(m.data, n.data));
    var m3 := m2.(identifier := LastWins(m.identifier, n.identifier));
    var groups := n.Fields();
    assert ApplyAll(ApplyItem, m, groups[0]) == Some(m1) by { ItemSingularsApply(m, n); }
    assert ApplyAll(ApplyItem, m1, groups[1]) == Some(m2) by { ItemSingularsApply(m1, n); }
    assert ApplyAll(ApplyItem, m2, groups[2]) == Some(m3) by { ItemSingularsApply(m2, n); }
    ItemUnknownApply(m3, n.unknown);
    ApplyGroups(ApplyItem, [m, m1, m2, m3, m.Merge(n)], groups);
  }

  lemma ItemOnTop(m: FrameItem, n: FrameItem)
    requires n.WellFormed() && |n.Bytes()| < TWO_31
    ensures ParseWith(ApplyItem, m, n.Bytes()) == Some(m.Merge(n))
  {
    ItemFieldsApply(m, n);
    ParseOfGroups(ApplyItem, m, n.Fields());
  }

  lemma ItemRoundTrip(n: FrameItem)
    requires n.WellFormed() && |n.Bytes()| < TWO_31
    ensures ParseItem(n.Bytes()) == Some(n)
  {
    ItemOnTop(NO_ITEM, n);
    assert NO_ITEM.Merge(n) == n;
  }

  lemma {:induction false} ItemStaysWellFormed(m: FrameItem, bs: Bytes)
    requires m.WellFormed() && ParseWith(ApplyItem, m, bs).Some?
    ensures ParseWith(ApplyItem, m, bs).value.WellFormed()
    decreases |bs|
  {
    if bs != [] {
      ReadFieldIsValid(bs);
      var (t, rest) := ReadField(bs).value;
      if t.VarintField? {
        Int32RoundTrip(AsInt32(t.value));
      }
      ItemStaysWellFormed(ApplyItem(m, t).value, rest);
    }
  }

  lemma {:induction false} ItemMergesLater(m: FrameItem, n: FrameItem, bs: Bytes)
    requires ParseWith(ApplyItem, n, bs).Some?
    ensures ParseWith(ApplyItem, m.Merge(n), bs) == Some(m.Merge(ParseWith(ApplyItem, n, bs).value))
    decreases |bs|
  {
    if bs != [] {
      var (t, rest) := ReadField(bs).value;
      ApplyItemMerges(m, n, t);
      ItemMergesLater(m, ApplyItem(n, t).value, rest);
    }
  }

  lemma ItemConcat(a: Bytes, b: Bytes)
    requires ParseItem(a).Some? && ParseItem(b).Some?
    ensures ParseItem(a + b) == Some(ParseItem(a).value.Merge(ParseItem(b).value))
    ensures var (m, n, both) := (ParseItem(a).value, ParseItem(b).value, ParseItem(a + b).value);
            && both.typ == (if n.typ.Some? then n.typ else m.typ)
            && both.data == (if n.data.Some? then n.data else m.data)
            && both.identifier == (if n.identifier.Some? then n.identifier else m.identifier)
            && both.unknown == m.unknown + n.unknown
  {
    var m := ParseItem(a).value;
    ParseConcat(ApplyItem, NO_ITEM, a, b);
    ItemMergesLater(m, NO_ITEM, b);
    assert m.Merge(NO_ITEM) == m;
  }

  // ---------------------------------------------------------------- Frame

  datatype Frame = Frame(
    identifier: Option<Bytes>,
    items: seq<FrameItem>,
    unknown: seq<Token>)
  {
    /** MergeFrom: a present identifier wins, items and unknown fields are appended. */
    function Merge(from: Frame): Frame {
      Frame(LastWins(identifier, from.identifier), items + from.items, unknown + from.unknown)
    }

    predicate IsInitialized() { forall i :: i in items ==> i.IsInitialized() }

    function Fields(): seq<seq<Token>> {
      [BytesField(1, identifier), NestedFields(2, ItemBytes, items), unknown]
    }

    function Bytes(): Bytes { EmitAll(Flatten(Fields())) }

    ghost predicate WellFormed() {
      && (forall i :: i in items ==> i.WellFormed())
      && forall t :: t in unknown ==> t.Shaped() && IsUnknownToFrame(t)
    }
  }

  const NO_FRAME := Frame(None, [], [])

  function ApplyFrame(m: Frame, t: Token): Option<Frame> {
    match t
    case LenField(1, p) => Some(m.(identifier := Some(p)))
    case LenField(2, p) =>
      (match ParseItem(p)
       case None => None
       case Some(i) => Some(m.(items := m.items + [i])))
    case _ => Some(m.(unknown := m.unknown + [t]))
  }

  function ParsePartialFrame(bs: Bytes): Option<Frame> {
    ParseWith(ApplyFrame, NO_FRAME, bs)
  }

  /** ParseFromArray: the bytes parse and every required field was there. */
  function ParseFrame(bs: Bytes): Option<Frame> {
    match ParsePartialFrame(bs)
    case None => None
    case Some(f) => if f.IsInitialized() then Some(f) else None
  }

  predicate IsUnknownToFrame(t: Token) {
    match t
    case LenField(1, _) => false
    case LenField(2, _) => false
    case _ => true
  }

  lemma ApplyFrameMerges(m: Frame, n: Frame, t: Token)
    requires ApplyFrame(n, t).Some?
    ensures ApplyFrame(m.Merge(n), t) == Some(m.Merge(ApplyFrame(n, t).value))
  {
    match t
    case LenField(1, _) =>
    case LenField(2, p) => AppendAssociates(m.items, n.items, ParseItem(p).value);
    case _ => AppendAssociates(m.unknown, n.unknown, t);
  }

  lemma {:induction false} FrameUnknownApply(m: Frame, ts: seq<Token>)
    requires forall t :: t in ts ==> IsUnknownToFrame(t)
    ensures ApplyAll(ApplyFrame, m, ts) == Some(m.(unknown := m.unknown + ts))
    decreases |ts|
  {
    if ts == [] {
      assert m.unknown + ts == m.unknown;
    } else {
      assert ts[0] in ts;
      var m' := m.(unknown := m.unknown + [ts[0]]);
      FrameUnknownApply(m', ts[1..]);
      assert m'.unknown + ts[1..] == m.unknown + ts;
    }
  }

  lemma FrameItemApplies(m: Frame, x: FrameItem)
    requires x.WellFormed() && |x.Bytes()| < TWO_31
    ensures ApplyFrame(m, LenField(2, ItemBytes(x))) == Some(m.(items := m.items + [x]))
  {
    ItemRoundTrip(x);
  }

  lemma FrameItemsApply(m: Frame, items: seq<FrameItem>)
    requires forall x :: x in items ==> x.WellFormed() && |x.Bytes()| < TWO_31
    ensures ApplyAll(ApplyFrame, m, NestedFields(2, ItemBytes, items))
            == Some(m.(items := m.items + items))
  {
    var states := seq(|items| + 1, k requires 0 <= k <= |items| => m.(items := m.items + items[..k]));
    forall k | 0 <= k < |items|
      ensures ApplyFrame(states[k], LenField(2, ItemBytes(items[k]))) == Some(states[k + 1])
    {
      FrameItemApplies(states[k], items[k]);
      PrefixGrows(m.items, items, k);
    }
    ApplyEach(ApplyFrame, states, NestedFields(2, ItemBytes, items));
    assert m.items + items[..0] == m.items && items[..|items|] == items;
  }

  lemma FrameFieldsApply(m: Frame, n: Frame)
    requires n.WellFormed() && forall i :: i in n.items ==> |i.Bytes()| < TWO_31
    ensures ApplyAll(ApplyFrame, m, Flatten(n.Fields())) == Some(m.Merge(n))
  {
    var m1 := m.(identifier := LastWins(m.identifier, n.identifier));
    var m2 := m1.(items := m.items + n.items);
    FrameItemsApply(m1, n.items);
    FrameUnknownApply(m2, n.unknown);
    ApplyGroups(ApplyFrame, [m, m1, m2, m.Merge(n)], n.Fields());
  }

  lemma FrameOnTop(m: Frame, n: Frame)
    requires n.WellFormed() && |n.Bytes()| < TWO_31
    ensures ParseWith(ApplyFrame, m, n.Bytes()) == Some(m.Merge(n))
  {
    ParseOfGroups(ApplyFrame, m, n.Fields());
    NestedSizes(2, ItemBytes, n.items, n.Fields(), 1);
    FrameFieldsApply(m, n);
  }

  /** Every initialised frame comes back from its bytes, presence bits and item order included. */
  lemma FrameRoundTrip(n: Frame)
    requires n.WellFormed() && |n.Bytes()| < TWO_31
    ensures ParsePartialFrame(n.Bytes()) == Some(n)
    ensures ParseFrame(n.Bytes()) == if n.IsInitialized() then Some(n) else None
  {
    FrameOnTop(NO_FRAME, n);
    assert NO_FRAME.Merge(n) == n;
  }

  lemma {:induction false} FrameMergesLater(m: Frame, n: Frame, bs: Bytes)
    requires ParseWith(ApplyFrame, n, bs).Some?
    ensures ParseWith(ApplyFrame, m.Merge(n), bs) == Some(m.Merge(ParseWith(ApplyFrame, n, bs).value))
    decreases |bs|
  {
    if bs != [] {
      var (t, rest) := ReadField(bs).value;
      ApplyFrameMerges(m, n, t);
      FrameMergesLater(m, ApplyFrame(n, t).value, rest);
    }
  }

  /** Concatenation is merge, for all byte strings that parse. */
  lemma FrameConcat(a: Bytes, b: Bytes)
    requires ParsePartialFrame(a).Some? && ParsePartialFrame(b).Some?
    ensures ParsePartialFrame(a + b) == Some(ParsePartialFrame(a).value.Merge(ParsePartialFrame(b).value))
    ensures var (m, n, both) := (ParsePartialFrame(a).value, ParsePartialFrame(b).value,
                                 ParsePartialFrame(a + b).value);
            && both.identifier == (if n.identifier.Some? then n.identifier else m.identifier)
            && both.items == m.items + n.items && both.unknown == m.unknown + n.unknown
  {
    var m := ParsePartialFrame(a).value;
    ParseConcat(ApplyFrame, NO_FRAME, a, b);
    FrameMergesLater(m, NO_FRAME, b);
    assert m.Merge(NO_FRAME) == m;
  }

  lemma {:induction false} FrameStaysWellFormed(m: Frame, bs: Bytes)
    requires m.WellFormed() && ParseWith(ApplyFrame, m, bs).Some?
    ensures ParseWith(ApplyFrame, m, bs).value.WellFormed()
    decreases |bs|
  {
    if bs != [] {
      ReadFieldIsValid(bs);
      var (t, rest) := ReadField(bs).value;
      if t.VarintField? {
        Int32RoundTrip(AsInt32(t.value));
      }
      if t.LenField? && t.num == 2 {
        ItemStaysWellFormed(NO_ITEM, t.payload);
      }
      FrameStaysWellFormed(ApplyFrame(m, t).value, rest);
    }
  }
}
