/**
 The protobuf wire format below the generated classes: varints, tags and the four
 ungrouped field kinds (Protocol Buffers Encoding guide, "Base 128 Varints" and
 "Message Structure"), plus the generic "read one field, apply it, repeat" parser that
 every generated `MergePartialFromCodedStream` is compared with.
 */
module Wire {
  import opened Wrappers

  type byte = x: int | 0 <= x < 256
  type Bytes = seq<byte>

  const TWO_31 := 0x8000_0000
  const TWO_32 := 0x1_0000_0000
  const TWO_64 := 0x1_0000_0000_0000_0000
  const MAX_VARINT_BYTES: nat := 10

  // ---------------------------------------------------------------- varints

  function Varint(n: nat): (bs: Bytes)
    ensures |bs| >= 1
  {
    if n < 128 then [n] else [128 + n % 128] + Varint(n / 128)
  }

  /** Reads one varint of at most `k` bytes: its unbounded value and what follows it. */
  function ReadVarintUpTo(bs: Bytes, k: nat): (r: Option<(nat, Bytes)>)
    ensures r.Some? ==> |r.value.1| < |bs|
  {
    if k == 0 || bs == [] then None
    else if bs[0] < 128 then Some((bs[0], bs[1..]))
    else
      match ReadVarintUpTo(bs[1..], k - 1)
      case None => None
      case Some((high, rest)) => Some((bs[0] - 128 + 128 * high, rest))
  }

  /** A varint of up to ten bytes, its value truncated to 64 bits. */
  function ReadVarint64(bs: Bytes): (r: Option<(nat, Bytes)>)
    ensures r.Some? ==> |r.value.1| < |bs| && r.value.0 < TWO_64
  {
    match ReadVarintUpTo(bs, MAX_VARINT_BYTES)
    case None => None
    case Some((v, rest)) => Some((v % TWO_64, rest))
  }

  /** The same bytes, the value truncated to 32 bits. */
  function ReadVarint32(bs: Bytes): (r: Option<(nat, Bytes)>)
    ensures r.Some? ==> |r.value.1| < |bs| && r.value.0 < TWO_32
  {
    match ReadVarintUpTo(bs, MAX_VARINT_BYTES)
    case None => None
    case Some((v, rest)) => Some((v % TWO_32, rest))
  }

  function Power128(k: nat): nat {
    if k == 0 then 1 else 128 * Power128(k - 1)
  }

  lemma {:induction false} VarintReadsBack(n: nat, k: nat, rest: Bytes)
    requires k > 0 && n < Power128(k)
    ensures |Varint(n)| <= k
    ensures ReadVarintUpTo(Varint(n) + rest, k) == Some((n, rest))
  {
    if n < 128 {
      assert (Varint(n) + rest)[1..] == rest;
    } else {
      assert n / 128 < Power128(k - 1);
      VarintReadsBack(n / 128, k - 1, rest);
      assert (Varint(n) + rest)[1..] == Varint(n / 128) + rest;
    }
  }

  lemma TenBytesSuffice()
    ensures TWO_64 < Power128(MAX_VARINT_BYTES)
  {
  }

  lemma VarintFitsTenBytes(n: nat, rest: Bytes)
    requires n < TWO_64
    ensures ReadVarintUpTo(Varint(n) + rest, MAX_VARINT_BYTES) == Some((n, rest))
  {
    TenBytesSuffice();
    VarintReadsBack(n, MAX_VARINT_BYTES, rest);
  }

  lemma VarintTruncates(bs: Bytes, n: nat, rest: Bytes)
    requires ReadVarintUpTo(bs, MAX_VARINT_BYTES) == Some((n, rest))
    ensures n < TWO_64 ==> ReadVarint64(bs) == Some((n, rest))
    ensures n < TWO_32 ==> ReadVarint32(bs) == Some((n, rest))
  {
  }

  lemma VarintRoundTrip(n: nat, rest: Bytes)
    requires n < TWO_64
    ensures ReadVarint64(Varint(n) + rest) == Some((n, rest))
    ensures n < TWO_32 ==> ReadVarint32(Varint(n) + rest) == Some((n, rest))
  {
    VarintFitsTenBytes(n, rest);
    VarintTruncates(Varint(n) + rest, n, rest);
  }

  lemma {:induction false} ReadVarintUpToExtends(a: Bytes, b: Bytes, k: nat)
    requires ReadVarintUpTo(a, k).Some?
    ensures var (v, rest) := ReadVarintUpTo(a, k).value;
            ReadVarintUpTo(a + b, k) == Some((v, rest + b))
  {
    if a[0] < 128 {
      assert (a + b)[1..] == a[1..] + b;
    } else {
      ReadVarintUpToExtends(a[1..], b, k - 1);
      assert (a + b)[1..] == a[1..] + b;
    }
  }

  /** The number of bytes the generated ByteSize functions add for a varint: one per seven bits. */
  function VarintSize(n: nat): nat {
    if n < 128 then 1 else 1 + VarintSize(n / 128)
  }

  lemma {:induction false} VarintSizeIsLength(n: nat)
    ensures VarintSize(n) == |Varint(n)|
  {
    if n >= 128 {
      VarintSizeIsLength(n / 128);
    }
  }

  // ---------------------------------------------------------------- int32 and enum values

  type int32 = x: int | -0x8000_0000 <= x < 0x8000_0000

  /** int32 and enum values are written as 64-bit varints, sign extended. */
  function SignExtend(v: int32): (u: nat)
    ensures u < TWO_64
  {
    if v < 0 then v + TWO_64 else v
  }

  /** The low 32 bits of a varint read back as a signed value. */
  function AsInt32(u: nat): int32 {
    var low := u % TWO_32;
    if low >= TWO_31 then low - TWO_32 else low
  }

  lemma Int32RoundTrip(v: int32)
    ensures AsInt32(SignExtend(v)) == v
  {
  }

  // ---------------------------------------------------------------- fields

  /**
   One field on the wire: its number, its kind and its payload. The payload of a group is the bytes
   that its fields and its end are written with.
   */
  datatype Token =
    | VarintField(num: nat, value: nat)
    | Fixed64Field(num: nat, raw: Bytes)
    | LenField(num: nat, payload: Bytes)
    | GroupField(num: nat, body: Bytes)
    | Fixed32Field(num: nat, raw: Bytes)
  {
    function WireType(): nat {
      match this
      case VarintField(_, _) => 0
      case Fixed64Field(_, _) => 1
      case LenField(_, _) => 2
      case GroupField(_, _) => 3
      case Fixed32Field(_, _) => 5
    }

    function Tag(): nat { num * 8 + WireType() }

    /** A legal tag and, except for the length of a payload, a legal body. */
    predicate Shaped() {
      && 0 < Tag() < TWO_32
      && match this
         case VarintField(_, v) => v < TWO_64
         case Fixed64Field(_, raw) => |raw| == 8
         case LenField(_, p) => true
         case GroupField(n, body) => ReadGroup(n, body) == Some((body, []))
         case Fixed32Field(_, raw) => |raw| == 4
    }

    predicate Valid() {
      Shaped() && (LenField? ==> |payload| < TWO_31)
    }

    /** The bytes after the tag. */
    function Body(): Bytes {
      match this
      case VarintField(_, v) => Varint(v)
      case Fixed64Field(_, raw) => raw
      case LenField(_, p) => Varint(|p|) + p
      case GroupField(_, body) => body
      case Fixed32Field(_, raw) => raw
    }

    function Emit(): Bytes { Varint(Tag()) + Body() }
  }

  /** The tag at the head of `bs`; a zero tag or an unreadable one ends no message properly. */
  function ReadTag(bs: Bytes): (r: Option<(nat, Bytes)>)
    ensures r.Some? ==> |r.value.1| < |bs|
    ensures r.Some? ==> 0 < r.value.0 < TWO_32
  {
    match ReadVarint32(bs)
    case None => None
    case Some((tag, rest)) => if tag == 0 then None else Some((tag, rest))
  }

  function SplitAt(bs: Bytes, n: nat): (r: Option<(Bytes, Bytes)>)
    ensures r.Some? <==> n <= |bs|
    ensures r.Some? ==> |r.value.0| == n && r.value.0 + r.value.1 == bs
  {
    if n <= |bs| then Some((bs[..n], bs[n..])) else None
  }

  /** A length prefix and that many bytes. Lengths that are negative as an int are refused. */
  function ReadLengthDelimited(bs: Bytes): (r: Option<(Bytes, Bytes)>)
    ensures r.Some? ==> |r.value.1| < |bs|
  {
    match ReadVarint32(bs)
    case None => None
    case Some((n, rest)) => if n >= TWO_31 then None else SplitAt(rest, n)
  }

  /** What follows a tag. The end of a group that was not begun and kinds 6 and 7 are refused. */
  function ReadBody(tag: nat, bs: Bytes): (r: Option<(Token, Bytes)>)
    ensures r.Some? ==> |r.value.1| <= |bs|
    decreases |bs|, 1
  {
    var num, kind := tag / 8, tag % 8;
    if kind == 0 then
      match ReadVarint64(bs)
      case None => None
      case Some((v, rest)) => Some((VarintField(num, v), rest))
    else if kind == 1 then
      match SplitAt(bs, 8)
      case None => None
      case Some((raw, rest)) => Some((Fixed64Field(num, raw), rest))
    else if kind == 2 then
      match ReadLengthDelimited(bs)
      case None => None
      case Some((p, rest)) => Some((LenField(num, p), rest))
    else if kind == 3 then
      match ReadGroup(num, bs)
      case None => None
      case Some((body, rest)) => Some((GroupField(num, body), rest))
    else if kind == 5 then
      match SplitAt(bs, 4)
      case None => None
      case Some((raw, rest)) => Some((Fixed32Field(num, raw), rest))
    else None
  }

  /** The fields of group `num`, up to and including its end, as they are written again. */
  function ReadGroup(num: nat, bs: Bytes): (r: Option<(Bytes, Bytes)>)
    ensures r.Some? ==> |r.value.1| < |bs|
    decreases |bs|, 0
  {
    match ReadTag(bs)
    case None => None
    case Some((tag, rest)) =>
      if tag % 8 == 4 then
        if tag / 8 == num then Some((Varint(tag), rest)) else None
      else
        match ReadBody(tag, rest)
        case None => None
        case Some((t, after)) =>
          match ReadGroup(num, after)
          case None => None
          case Some((body, end)) => Some((t.Emit() + body, end))
  }

  function ReadField(bs: Bytes): (r: Option<(Token, Bytes)>)
    ensures r.Some? ==> |r.value.1| < |bs|
  {
    match ReadTag(bs)
    case None => None
    case Some((tag, rest)) => ReadBody(tag, rest)
  }

  lemma ConcatAssociates(a: Bytes, b: Bytes, c: Bytes)
    ensures a + (b + c) == (a + b) + c
  {
  }

  lemma TagSplits(num: nat, kind: nat)
    requires kind < 8
    ensures (num * 8 + kind) / 8 == num && (num * 8 + kind) % 8 == kind
  {
  }

  lemma SplitAtAppend(a: Bytes, b: Bytes)
    ensures SplitAt(a + b, |a|) == Some((a, b))
  {
    assert (a + b)[..|a|] == a && (a + b)[|a|..] == b;
  }

  lemma LengthDelimitedIsSplit(bs: Bytes, n: nat, body: Bytes)
    requires ReadVarint32(bs) == Some((n, body)) && n < TWO_31
    ensures ReadLengthDelimited(bs) == SplitAt(body, n)
  {
  }

  lemma LengthDelimitedReadsBack(p: Bytes, rest: Bytes)
    requires |p| < TWO_31
    ensures ReadLengthDelimited(Varint(|p|) + p + rest) == Some((p, rest))
  {
    var prefix := Varint(|p|);
    ConcatAssociates(prefix, p, rest);
    VarintRoundTrip(|p|, p + rest);
    LengthDelimitedIsSplit(prefix + p + rest, |p|, p + rest);
    SplitAtAppend(p, rest);
  }

  lemma SplitAtExtends(a: Bytes, b: Bytes, n: nat)
    requires n <= |a|
    ensures SplitAt(a + b, n) == Some((a[..n], a[n..] + b))
  {
    assert (a + b)[..n] == a[..n] && (a + b)[n..] == a[n..] + b;
  }

  lemma {:induction false} BodyExtends(tag: nat, a: Bytes, b: Bytes)
    requires ReadBody(tag, a).Some?
    ensures ReadBody(tag, a + b) == Some((ReadBody(tag, a).value.0, ReadBody(tag, a).value.1 + b))
    decreases |a|, 1
  {
    var kind := tag % 8;
    if kind == 0 {
      ReadVarintUpToExtends(a, b, MAX_VARINT_BYTES);
    } else if kind == 1 {
      SplitAtExtends(a, b, 8);
    } else if kind == 2 {
      ReadVarintUpToExtends(a, b, MAX_VARINT_BYTES);
      var (n, body) := ReadVarint32(a).value;
      SplitAtExtends(body, b, n);
    } else if kind == 3 {
      GroupExtends(tag / 8, a, b);
    } else {
      SplitAtExtends(a, b, 4);
    }
  }

  lemma {:induction false} GroupExtends(num: nat, a: Bytes, b: Bytes)
    requires ReadGroup(num, a).Some?
    ensures ReadGroup(num, a + b) == Some((ReadGroup(num, a).value.0, ReadGroup(num, a).value.1 + b))
    decreases |a|, 0
  {
    ReadVarintUpToExtends(a, b, MAX_VARINT_BYTES);
    var (tag, rest) := ReadTag(a).value;
    assert ReadTag(a + b) == Some((tag, rest + b));
    if tag % 8 != 4 {
      BodyExtends(tag, rest, b);
      GroupExtends(num, ReadBody(tag, rest).value.1, b);
    }
  }

  lemma BodyReadsBack(t: Token, rest: Bytes)
    requires t.Valid()
    ensures ReadBody(t.Tag(), t.Body() + rest) == Some((t, rest))
  {
    TagSplits(t.num, t.WireType());
    match t
    case VarintField(_, v) =>
      VarintRoundTrip(v, rest);
    case Fixed64Field(_, raw) =>
      SplitAtAppend(raw, rest);
    case LenField(_, p) =>
      LengthDelimitedReadsBack(p, rest);
    case GroupField(num, body) =>
      GroupExtends(num, body, rest);
      assert [] + rest == rest;
    case Fixed32Field(_, raw) =>
      SplitAtAppend(raw, rest);
  }

  lemma FieldReadsBack(t: Token, rest: Bytes)
    requires t.Valid()
    ensures ReadField(t.Emit() + rest) == Some((t, rest))
  {
    assert t.Emit() + rest == Varint(t.Tag()) + (t.Body() + rest);
    VarintRoundTrip(t.Tag(), t.Body() + rest);
    BodyReadsBack(t, rest);
  }

  lemma FieldExtends(a: Bytes, b: Bytes)
    requires ReadField(a).Some?
    ensures ReadField(a + b) == Some((ReadField(a).value.0, ReadField(a).value.1 + b))
  {
    ReadVarintUpToExtends(a, b, MAX_VARINT_BYTES);
    var (tag, rest) := ReadTag(a).value;
    BodyExtends(tag, rest, b);
  }

  // ---------------------------------------------------------------- whole messages

  /** How a message type takes one field; None is a failing nested parse. */
  type Applier<!M> = (M, Token) -> Option<M>

  /** The plain parser: read one field, apply it, repeat until the bytes are used up. */
  function ParseWith<M>(apply: Applier<M>, m: M, bs: Bytes): Option<M>
    decreases |bs|
  {
    if bs == [] then Some(m)
    else
      match ReadField(bs)
      case None => None
      case Some((t, rest)) =>
        match apply(m, t)
        case None => None
        case Some(m') => ParseWith(apply, m', rest)
  }

  function ApplyAll<M>(apply: Applier<M>, m: M, ts: seq<Token>): Option<M> {
    if ts == [] then Some(m)
    else
      match apply(m, ts[0])
      case None => None
      case Some(m') => ApplyAll(apply, m', ts[1..])
  }

  function EmitAll(ts: seq<Token>): Bytes {
    if ts == [] then [] else ts[0].Emit() + EmitAll(ts[1..])
  }

  ghost predicate AllValid(ts: seq<Token>) {
    forall t :: t in ts ==> t.Valid()
  }

  lemma {:induction false} EmitAllConcat(a: seq<Token>, b: seq<Token>)
    ensures EmitAll(a + b) == EmitAll(a) + EmitAll(b)
  {
    if a == [] {
      assert a + b == b;
    } else {
      assert (a + b)[1..] == a[1..] + b;
      EmitAllConcat(a[1..], b);
      ConcatAssociates(a[0].Emit(), EmitAll(a[1..]), EmitAll(b));
    }
  }

  lemma {:induction false} ApplyAllConcat<M>(apply: Applier<M>, m: M, a: seq<Token>, b: seq<Token>)
    requires ApplyAll(apply, m, a).Some?
    ensures ApplyAll(apply, m, a + b) == ApplyAll(apply, ApplyAll(apply, m, a).value, b)
  {
    if a == [] {
      assert a + b == b;
    } else {
      ApplyAllConcat(apply, apply(m, a[0]).value, a[1..], b);
      assert (a + b)[1..] == a[1..] + b;
    }
  }

  lemma NothingApplied<M>(apply: Applier<M>, m: M)
    ensures ApplyAll(apply, m, []) == Some(m)
  {
  }

  lemma ApplyOne<M>(apply: Applier<M>, m: M, t: Token)
    ensures ApplyAll(apply, m, [t]) == apply(m, t)
  {
    assert [t][1..] == [];
  }

  function Flatten<T>(groups: seq<seq<T>>): seq<T> {
    if groups == [] then [] else groups[0] + Flatten(groups[1..])
  }

  /** Groups of fields applied one after the other: `states` are the messages in between. */
  lemma {:induction false} ApplyGroups<M>(apply: Applier<M>, states: seq<M>, groups: seq<seq<Token>>)
    requires |states| == |groups| + 1
    requires forall i :: 0 <= i < |groups| ==> ApplyAll(apply, states[i], groups[i]) == Some(states[i + 1])
    ensures ApplyAll(apply, states[0], Flatten(groups)) == Some(states[|groups|])
    decreases |groups|
  {
    if groups != [] {
      ApplyGroups(apply, states[1..], groups[1..]);
      ApplyAllConcat(apply, states[0], groups[0], Flatten(groups[1..]));
    }
  }

  /** Parsing emitted fields is applying them one by one. */
  lemma {:induction false} ParseOfEmitted<M>(apply: Applier<M>, m: M, ts: seq<Token>)
    requires AllValid(ts)
    ensures ParseWith(apply, m, EmitAll(ts)) == ApplyAll(apply, m, ts)
  {
    if ts != [] {
      FieldReadsBack(ts[0], EmitAll(ts[1..]));
      match apply(m, ts[0])
      case None =>
      case Some(m') => ParseOfEmitted(apply, m', ts[1..]);
    }
  }

  /** Parsing a ++ b is parsing b on top of what a parsed to. */
  lemma {:induction false} ParseConcat<M>(apply: Applier<M>, m: M, a: Bytes, b: Bytes)
    requires ParseWith(apply, m, a).Some?
    ensures ParseWith(apply, m, a + b) == ParseWith(apply, ParseWith(apply, m, a).value, b)
    decreases |a|
  {
    if a == [] {
      assert a + b == b;
    } else {
      FieldExtends(a, b);
      var (t, rest) := ReadField(a).value;
      ParseConcat(apply, apply(m, t).value, rest, b);
    }
  }

  lemma {:induction false} ReadBodyIsValid(tag: nat, bs: Bytes)
    requires 0 < tag < TWO_32 && ReadBody(tag, bs).Some?
    ensures var t := ReadBody(tag, bs).value.0; t.Valid() && t.Tag() == tag
    decreases |bs|, 1
  {
    if tag % 8 == 3 {
      GroupIsCanonical(tag / 8, bs);
    }
  }

  /** What was read of a group is read again as it is. */
  lemma {:induction false} GroupIsCanonical(num: nat, bs: Bytes)
    requires ReadGroup(num, bs).Some?
    ensures var body := ReadGroup(num, bs).value.0; ReadGroup(num, body) == Some((body, []))
    decreases |bs|, 0
  {
    var (tag, rest) := ReadTag(bs).value;
    if tag % 8 == 4 {
      VarintRoundTrip(tag, []);
      assert Varint(tag) + [] == Varint(tag);
    } else {
      var (t, after) := ReadBody(tag, rest).value;
      var body := ReadGroup(num, after).value.0;
      ReadBodyIsValid(tag, rest);
      GroupIsCanonical(num, after);
      FieldReadsBack(t, body);
    }
  }

  /** Every field that is read is one that can be written. */
  lemma ReadFieldIsValid(bs: Bytes)
    requires ReadField(bs).Some?
    ensures ReadField(bs).value.0.Valid()
  {
    var (tag, rest) := ReadTag(bs).value;
    ReadBodyIsValid(tag, rest);
  }

  ghost predicate AllShaped(ts: seq<Token>) {
    forall t :: t in ts ==> t.Shaped()
  }

  lemma {:induction false} FlattenShaped(groups: seq<seq<Token>>)
    requires forall i :: 0 <= i < |groups| ==> AllShaped(groups[i])
    ensures AllShaped(Flatten(groups))
  {
    if groups != [] {
      FlattenShaped(groups[1..]);
    }
  }

  lemma PayloadWithinEmission(t: Token)
    requires t.LenField?
    ensures |t.payload| < |t.Emit()|
  {
  }

  /** Fields that take less than 2 GiB together have payloads of less than 2 GiB. */
  lemma {:induction false} SmallEmissionIsValid(ts: seq<Token>)
    requires AllShaped(ts) && |EmitAll(ts)| < TWO_31
    ensures AllValid(ts)
  {
    if ts != [] {
      SmallEmissionIsValid(ts[1..]);
      if ts[0].LenField? {
        PayloadWithinEmission(ts[0]);
      }
    }
  }

  /** What a message takes from its own serialised fields. */
  lemma ParseOfGroups<M>(apply: Applier<M>, m: M, groups: seq<seq<Token>>)
    requires forall i :: 0 <= i < |groups| ==> AllShaped(groups[i])
    requires |EmitAll(Flatten(groups))| < TWO_31
    ensures AllValid(Flatten(groups))
    ensures ParseWith(apply, m, EmitAll(Flatten(groups))) == ApplyAll(apply, m, Flatten(groups))
  {
    FlattenShaped(groups);
    SmallEmissionIsValid(Flatten(groups));
    ParseOfEmitted(apply, m, Flatten(groups));
  }

  lemma AppendAssociates<T>(a: seq<T>, b: seq<T>, t: T)
    ensures a + (b + [t]) == a + b + [t]
  {
  }

  // ---------------------------------------------------------------- singular fields

  function BytesField(num: nat, field: Option<Bytes>): seq<Token> {
    if field.Some? then [LenField(num, field.value)] else []
  }

  function Int32Field(num: nat, field: Option<int32>): seq<Token> {
    if field.Some? then [VarintField(num, SignExtend(field.value))] else []
  }

  function BoolField(num: nat, field: Option<bool>): seq<Token> {
    if field.Some? then [VarintField(num, if field.value then 1 else 0)] else []
  }

  // ---------------------------------------------------------------- repeated messages

  /** A repeated message field: one length-delimited field per element, in order. */
  function NestedFields<C>(num: nat, bytesOf: C -> Bytes, cs: seq<C>): (ts: seq<Token>)
    ensures |ts| == |cs|
  {
    seq(|cs|, i requires 0 <= i < |cs| => LenField(num, bytesOf(cs[i])))
  }

  /** Fields applied one after the other: `states` are the messages in between. */
  lemma {:induction false} ApplyEach<M>(apply: Applier<M>, states: seq<M>, ts: seq<Token>)
    requires |states| == |ts| + 1
    requires forall i :: 0 <= i < |ts| ==> apply(states[i], ts[i]) == Some(states[i + 1])
    ensures ApplyAll(apply, states[0], ts) == Some(states[|ts|])
    decreases |ts|
  {
    if ts != [] {
      ApplyEach(apply, states[1..], ts[1..]);
    }
  }

  lemma PrefixGrows<T>(base: seq<T>, items: seq<T>, i: nat)
    requires i < |items|
    ensures base + items[..i] + [items[i]] == base + items[..i + 1]
  {
  }

  lemma {:induction false} FlattenContains<T>(groups: seq<seq<T>>, i: nat, t: T)
    requires i < |groups| && t in groups[i]
    ensures t in Flatten(groups)
  {
    if i > 0 {
      FlattenContains(groups[1..], i - 1, t);
    }
  }

  /** The elements of a repeated field are smaller than the message they are in. */
  lemma NestedSizes<C>(num: nat, bytesOf: C -> Bytes, cs: seq<C>, groups: seq<seq<Token>>, i: nat)
    requires i < |groups| && groups[i] == NestedFields(num, bytesOf, cs)
    requires AllValid(Flatten(groups))
    ensures forall c :: c in cs ==> |bytesOf(c)| < TWO_31
  {
    forall c | c in cs
      ensures |bytesOf(c)| < TWO_31
    {
      var k :| 0 <= k < |cs| && cs[k] == c;
      assert groups[i][k] == LenField(num, bytesOf(c));
      FlattenContains(groups, i, groups[i][k]);
    }
  }
}
