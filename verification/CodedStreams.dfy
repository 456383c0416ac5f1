/**
 The byte streams the generated classes read from and write to. The library's own code is not
 part of this model: each reader is specified by the wire format in module Wire.
 */
module CodedStreams {
  import opened Wrappers
  import opened Wire

  // ---------------------------------------------------------------- what a reader leaves behind

  lemma {:induction false} ReadVarintLeavesSuffix(bs: Bytes, k: nat)
    requires ReadVarintUpTo(bs, k).Some?
    ensures ReadVarintUpTo(bs, k).value.1 == bs[|bs| - |ReadVarintUpTo(bs, k).value.1|..]
  {
    if bs[0] >= 128 {
      ReadVarintLeavesSuffix(bs[1..], k - 1);
    }
  }

  lemma ReadLengthDelimitedLeavesSuffix(bs: Bytes)
    requires ReadLengthDelimited(bs).Some?
    ensures ReadLengthDelimited(bs).value.1 == bs[|bs| - |ReadLengthDelimited(bs).value.1|..]
    ensures |ReadLengthDelimited(bs).value.1| <= |bs|
  {
    ReadVarintLeavesSuffix(bs, MAX_VARINT_BYTES);
  }

  lemma {:induction false} ReadBodyLeavesSuffix(tag: nat, bs: Bytes)
    requires ReadBody(tag, bs).Some?
    ensures ReadBody(tag, bs).value.1 == bs[|bs| - |ReadBody(tag, bs).value.1|..]
    decreases |bs|, 1
  {
    var kind := tag % 8;
    if kind == 0 {
      ReadVarintLeavesSuffix(bs, MAX_VARINT_BYTES);
    } else if kind == 2 {
      ReadLengthDelimitedLeavesSuffix(bs);
    } else if kind == 3 {
      ReadGroupLeavesSuffix(tag / 8, bs);
    }
  }

  lemma {:induction false} ReadGroupLeavesSuffix(num: nat, bs: Bytes)
    requires ReadGroup(num, bs).Some?
    ensures ReadGroup(num, bs).value.1 == bs[|bs| - |ReadGroup(num, bs).value.1|..]
    decreases |bs|, 0
  {
    ReadVarintLeavesSuffix(bs, MAX_VARINT_BYTES);
    var (tag, rest) := ReadTag(bs).value;
    if tag % 8 != 4 {
      ReadBodyLeavesSuffix(tag, rest);
      ReadGroupLeavesSuffix(num, ReadBody(tag, rest).value.1);
    }
  }

  // ---------------------------------------------------------------- parsing, tag by tag

  /** What is left to parse once a tag has been taken off the stream. */
  function ParseAfterTag<M>(apply: Applier<M>, m: M, tag: nat, bs: Bytes): Option<M> {
    match ReadBody(tag, bs)
    case None => None
    case Some((t, rest)) =>
      match apply(m, t)
      case None => None
      case Some(m') => ParseWith(apply, m', rest)
  }

  lemma ParseIsTagThenRest<M>(apply: Applier<M>, m: M, bs: Bytes)
    ensures ParseWith(apply, m, bs)
            == if bs == [] then Some(m)
               else match ReadTag(bs) case None => None case Some((tag, rest)) => ParseAfterTag(apply, m, tag, rest)
  {
  }

  /** ExpectTag: a one-byte tag at the head of the stream is what ReadTag would have read. */
  lemma ExpectedTagIsReadTag(tag: nat, bs: Bytes)
    requires 0 < tag < 128 && bs != [] && bs[0] == tag
    ensures ReadTag(bs) == Some((tag, bs[1..]))
  {
  }

  class CodedInputStream {
    const buffer: Bytes
    var position: nat
    var limit: nat
    var legitimateMessageEnd: bool

    constructor (bytes: Bytes)
      ensures Valid() && Rest() == bytes && !legitimateMessageEnd && limit == |bytes|
    {
      buffer := bytes;
      position := 0;
      limit := |bytes|;
      legitimateMessageEnd := false;
    }

    predicate Valid()
      reads this
    {
      position <= limit <= |buffer|
    }

    /** The bytes between the position and the innermost limit. */
    function Rest(): Bytes
      requires Valid()
      reads this
    {
      buffer[position..limit]
    }

    /** The next tag; 0 at the limit, where the message properly ends, and on an unreadable tag. */
    method ReadTag() returns (tag: nat)
      requires Valid()
      modifies this
      ensures Valid() && limit == old(limit) && position >= old(position)
      ensures legitimateMessageEnd <==> old(Rest()) == []
      ensures old(Rest()) == [] ==> tag == 0 && position == old(position)
      ensures old(Rest()) != [] ==>
                match Wire.ReadTag(old(Rest()))
                case None => tag == 0
                case Some((t, rest)) => tag == t && Rest() == rest
    {
      var rest := Rest();
      legitimateMessageEnd := rest == [];
      var r := Wire.ReadTag(rest);
      if r.Some? {
        ReadVarintLeavesSuffix(rest, MAX_VARINT_BYTES);
        tag := r.value.0;
        position := limit - |r.value.1|;
      } else {
        tag := 0;
      }
    }

    method ExpectTag(expected: nat) returns (found: bool)
      requires Valid() && 0 < expected < 128
      modifies this`position
      ensures Valid()
      ensures found <==> old(Rest()) != [] && old(Rest())[0] == expected
      ensures Rest() == if found then old(Rest())[1..] else old(Rest())
    {
      found := position < limit && buffer[position] == expected;
      if found {
        position := position + 1;
      }
    }

    method ExpectAtEnd() returns (atEnd: bool)
      requires Valid()
      modifies this`legitimateMessageEnd
      ensures atEnd <==> Rest() == []
      ensures legitimateMessageEnd == (atEnd || old(legitimateMessageEnd))
    {
      atEnd := position == limit;
      if atEnd {
        legitimateMessageEnd := true;
      }
    }

    method ReadVarint64() returns (v: Option<nat>)
      requires Valid()
      modifies this`position
      ensures Valid()
      ensures match Wire.ReadVarint64(old(Rest()))
              case None => v == None
              case Some((x, rest)) => v == Some(x) && Rest() == rest
    {
      var rest := Rest();
      var r := Wire.ReadVarint64(rest);
      if r.None? {
        return None;
      }
      ReadVarintLeavesSuffix(rest, MAX_VARINT_BYTES);
      position := limit - |r.value.1|;
      return Some(r.value.0);
    }

    /** int32 and enum fields: the low 32 bits of the varint. */
    method ReadInt32() returns (v: Option<int32>)
      requires Valid()
      modifies this`position
      ensures Valid()
      ensures match Wire.ReadVarint64(old(Rest()))
              case None => v == None
              case Some((x, rest)) => v == Some(AsInt32(x)) && Rest() == rest
    {
      var x := ReadVarint64();
      if x.None? {
        return None;
      }
      return Some(AsInt32(x.value));
    }

    /** bytes and string fields: a length and that many bytes. */
    method ReadBytes() returns (v: Option<Bytes>)
      requires Valid()
      modifies this`position
      ensures Valid()
      ensures match ReadLengthDelimited(old(Rest()))
              case None => v == None
              case Some((p, rest)) => v == Some(p) && Rest() == rest
    {
      var rest := Rest();
      var r := ReadLengthDelimited(rest);
      if r.None? {
        return None;
      }
      ReadLengthDelimitedLeavesSuffix(rest);
      position := limit - |r.value.1|;
      return Some(r.value.0);
    }

    /** SkipField: the field behind an unexpected tag, for the unknown fields. */
    method SkipField(tag: nat) returns (t: Option<Token>)
      requires Valid()
      modifies this`position
      ensures Valid()
      ensures match ReadBody(tag, old(Rest()))
              case None => t == None
              case Some((x, rest)) => t == Some(x) && Rest() == rest
    {
      var rest := Rest();
      var r := ReadBody(tag, rest);
      if r.None? {
        return None;
      }
      ReadBodyLeavesSuffix(tag, rest);
      position := limit - |r.value.1|;
      return Some(r.value.0);
    }

    /** Reads a length and narrows the limit to that many bytes; the old limit is returned. */
    method EnterMessage() returns (outer: Option<nat>)
      requires Valid()
      modifies this`position, this`limit
      ensures Valid()
      ensures match ReadLengthDelimited(old(Rest()))
              case None => outer == None && limit == old(limit)
              case Some((p, rest)) => outer == Some(old(limit)) && Rest() == p
                                      && limit <= old(limit) && buffer[limit..old(limit)] == rest
    {
      var rest := Rest();
      var r := ReadLengthDelimited(rest);
      if r.None? {
        return None;
      }
      ReadLengthDelimitedLeavesSuffix(rest);
      outer := Some(limit);
      EnteredBytes(rest);
      var (p, after) := r.value;
      ghost var start, length := position, |rest|;
      position := limit - |after| - |p|;
      limit := limit - |after|;
      SliceOfSlice(buffer, start, outer.value, length - |after| - |p|, length - |after|);
      SliceOfSlice(buffer, start, outer.value, length - |after|, length);
    }

    /** PopLimit. */
    method LeaveMessage(outer: nat)
      requires Valid() && limit <= outer <= |buffer|
      modifies this`limit, this`legitimateMessageEnd
      ensures Valid() && limit == outer && !legitimateMessageEnd
    {
      limit := outer;
      legitimateMessageEnd := false;
    }
  }

  lemma SliceOfSlice<T>(s: seq<T>, lo: nat, hi: nat, i: nat, j: nat)
    requires lo <= hi <= |s| && i <= j <= hi - lo
    ensures s[lo..hi][i..j] == s[lo + i..lo + j]
  {
    forall k | 0 <= k < j - i
      ensures s[lo..hi][i..j][k] == s[lo + i..lo + j][k]
    {
    }
  }

  lemma EnteredBytes(bs: Bytes)
    requires ReadLengthDelimited(bs).Some?
    ensures var (p, rest) := ReadLengthDelimited(bs).value;
            && |p| + |rest| <= |bs|
            && bs[|bs| - |rest| - |p|..|bs| - |rest|] == p
  {
    ReadVarintLeavesSuffix(bs, MAX_VARINT_BYTES);
  }

  // ---------------------------------------------------------------- steps of the generated loops

  /** What is left to parse when `pending` is 0 or a tag that was taken off the stream already. */
  function ParseFrom<M>(apply: Applier<M>, m: M, pending: nat, bs: Bytes): Option<M> {
    if pending == 0 then ParseWith(apply, m, bs) else ParseAfterTag(apply, m, pending, bs)
  }

  /** The head of the loop: the pending tag if there is one, else the next tag of the stream. */
  method NextTag<M>(input: CodedInputStream, pending: nat, ghost apply: Applier<M>, ghost m: M) returns (tag: nat)
    requires input.Valid() && !input.legitimateMessageEnd
    modifies input
    ensures input.Valid() && input.limit == old(input.limit)
    ensures var plain := ParseFrom(apply, m, pending, old(input.Rest()));
            if tag == 0 || tag % 8 == 4 then plain == if input.legitimateMessageEnd then Some(m) else None
            else plain == ParseAfterTag(apply, m, tag, input.Rest())
    ensures input.legitimateMessageEnd ==> tag == 0 && input.Rest() == []
    ensures |input.Rest()| <= |old(input.Rest())|
    ensures pending == 0 && tag != 0 ==> |input.Rest()| < |old(input.Rest())|
  {
    tag := pending;
    if tag == 0 {
      ParseIsTagThenRest(apply, m, input.Rest());
      tag := input.ReadTag();
    }
  }

  /** What a case of a generated switch ends with: expected tags, tried in turn, then perhaps the end. */
  datatype Expectation = Expect(tags: seq<nat>, end: bool)

  const ANYTHING := Expect([], false)

  ghost predicate OneByteTags(tags: seq<nat>) { forall tag :: tag in tags ==> 0 < tag < 128 }

  /** The gotos at the end of a case: enters the next case, or stops at the end of the bytes. */
  method Follow<M>(input: CodedInputStream, next: Expectation, ghost apply: Applier<M>, ghost m: M)
    returns (pending: nat, done: bool)
    requires input.Valid() && !input.legitimateMessageEnd && OneByteTags(next.tags)
    modifies input`position, input`legitimateMessageEnd
    ensures input.Valid() && input.legitimateMessageEnd == done
    ensures done ==> old(input.Rest()) == input.Rest() == []
    ensures ParseWith(apply, m, old(input.Rest())) == ParseFrom(apply, m, pending, input.Rest())
    ensures Left(input.Rest(), pending) == |old(input.Rest())|
  {
    ghost var rest := input.Rest();
    var i := 0;
    while i < |next.tags|
      invariant i <= |next.tags| && input.Valid() && input.Rest() == rest && !input.legitimateMessageEnd
    {
      var expected := next.tags[i];
      assert expected in next.tags;
      var found := input.ExpectTag(expected);
      if found {
        ParseIsTagThenRest(apply, m, rest);
        ExpectedTagIsReadTag(expected, rest);
        return expected, false;
      }
      i := i + 1;
    }
    done := false;
    if next.end {
      done := input.ExpectAtEnd();
    }
    return 0, done;
  }

  /** Whether a pass of a generated loop goes round again (with a pending tag, or 0) or returns. */
  datatype Pass = Again(pending: nat) | Return(ok: bool)

  /** What one pass has to keep: the plain parser's result does not change. */
  ghost predicate Passes<M>(apply: Applier<M>, plain: Option<M>, pass: Pass, m: M, rest: Bytes, ended: bool) {
    match pass
    case Again(pending) => plain == ParseFrom(apply, m, pending, rest) && !ended
    case Return(ok) => if ok && ended then plain == Some(m) && rest == [] else plain == None
  }

  function Left(rest: Bytes, pending: nat): nat { |rest| + if pending == 0 then 0 else 1 }

  /** One case of a generated switch: reads the body of `tag` and applies it to the message. */
  ghost predicate TakesField<M>(apply: Applier<M>, m: M, tag: nat, bs: Bytes, ok: bool, m': M, rest: Bytes) {
    match ReadBody(tag, bs)
    case None => !ok
    case Some((t, after)) => if ok then apply(m, t) == Some(m') && rest == after else apply(m, t) == None
  }

  /** A nested message: its bytes are parsed on top of m, and the stream goes on behind them. */
  ghost predicate ReadsMessage<M>(apply: Applier<M>, m: M, bs: Bytes, ok: bool, m': M, rest: Bytes) {
    match ReadLengthDelimited(bs)
    case None => !ok
    case Some((p, after)) => if ok then ParseWith(apply, m, p) == Some(m') && rest == after
        else ParseWith(apply, m, p) == None
  }

  /** What ReadBytes and SkipField return. */
  ghost predicate ReadsBytes(bs: Bytes, v: Option<Bytes>, rest: Bytes) {
    match ReadLengthDelimited(bs)
    case None => v == None
    case Some((p, after)) => v == Some(p) && rest == after
  }

  ghost predicate ReadsVarint(bs: Bytes, v: Option<nat>, rest: Bytes) {
    match Wire.ReadVarint64(bs)
    case None => v == None
    case Some((x, after)) => v == Some(x) && rest == after
  }

  ghost predicate ReadsToken(tag: nat, bs: Bytes, t: Option<Token>, rest: Bytes) {
    match ReadBody(tag, bs)
    case None => t == None
    case Some((x, after)) => t == Some(x) && rest == after
  }

  lemma FieldTaken<M>(apply: Applier<M>, m: M, tag: nat, bs: Bytes, ok: bool, m': M, rest: Bytes)
    requires TakesField(apply, m, tag, bs, ok, m', rest)
    ensures ParseAfterTag(apply, m, tag, bs) == if ok then ParseWith(apply, m', rest) else None
    ensures ok ==> |rest| <= |bs|
  {
  }

  // ---------------------------------------------------------------- writing

  class CodedOutputStream {
    var bytes: Bytes

    constructor ()
      ensures bytes == []
    {
      bytes := [];
    }

    method WriteField(t: Token)
      modifies this
      ensures bytes == old(bytes) + EmitAll([t])
    {
      bytes := bytes + t.Emit();
      assert [t][1..] == [] && EmitAll([]) == [];
    }

    method WriteBytesField(num: nat, field: Option<Bytes>)
      modifies this
      ensures bytes == old(bytes) + EmitAll(BytesField(num, field))
    {
      if field.Some? {
        WriteField(LenField(num, field.value));
      }
    }

    method WriteInt32Field(num: nat, field: Option<int32>)
      modifies this
      ensures bytes == old(bytes) + EmitAll(Int32Field(num, field))
    {
      if field.Some? {
        WriteField(VarintField(num, SignExtend(field.value)));
      }
    }

    method WriteBoolField(num: nat, field: Option<bool>)
      modifies this
      ensures bytes == old(bytes) + EmitAll(BoolField(num, field))
    {
      if field.Some? {
        WriteField(VarintField(num, if field.value then 1 else 0));
      }
    }

    /** A nested message's tag and the length prefix taken from its cached size. */
    method WriteMessageHeader(num: nat, cachedSize: nat)
      modifies this
      ensures bytes == old(bytes) + Varint(num * 8 + 2) + Varint(cachedSize)
    {
      bytes := bytes + Varint(num * 8 + 2) + Varint(cachedSize);
    }

    method WriteUnknown(ts: seq<Token>)
      modifies this
      ensures bytes == old(bytes) + EmitAll(ts)
    {
      bytes := bytes + EmitAll(ts);
    }
  }

  // ---------------------------------------------------------------- sizes and output, group by group

  /** The bytes of the first k groups of fields. */
  function EmitGroups(groups: seq<seq<Token>>, k: nat): Bytes
    requires k <= |groups|
  {
    if k == 0 then [] else EmitGroups(groups, k - 1) + EmitAll(groups[k - 1])
  }

  lemma {:induction false} FlattenSnoc<T>(groups: seq<seq<T>>, g: seq<T>)
    ensures Flatten(groups + [g]) == Flatten(groups) + g
  {
    if groups == [] {
      assert groups + [g] == [g];
    } else {
      FlattenSnoc(groups[1..], g);
      assert (groups + [g])[1..] == groups[1..] + [g];
    }
  }

  lemma {:induction false} EmitGroupsIsEmitAll(groups: seq<seq<Token>>, k: nat)
    requires k <= |groups|
    ensures EmitGroups(groups, k) == EmitAll(Flatten(groups[..k]))
  {
    if k > 0 {
      EmitGroupsIsEmitAll(groups, k - 1);
      assert groups[..k] == groups[..k - 1] + [groups[k - 1]];
      FlattenSnoc(groups[..k - 1], groups[k - 1]);
      EmitAllConcat(Flatten(groups[..k - 1]), groups[k - 1]);
    }
  }

  /** Writing the next group after the first k. */
  lemma EmitGroupsStep(start: Bytes, groups: seq<seq<Token>>, k: nat)
    requires k < |groups|
    ensures start + EmitGroups(groups, k) + EmitAll(groups[k]) == start + EmitGroups(groups, k + 1)
  {
    ConcatAssociates(start, EmitGroups(groups, k), EmitAll(groups[k]));
  }

  lemma AllGroups(groups: seq<seq<Token>>)
    ensures EmitAll(Flatten(groups)) == EmitGroups(groups, |groups|)
  {
    EmitGroupsIsEmitAll(groups, |groups|);
    assert groups[..|groups|] == groups;
  }

  lemma EmptyStart(start: Bytes)
    ensures start + [] == start
  {
  }

  lemma TwoGroups(start: Bytes, groups: seq<seq<Token>>)
    requires |groups| >= 2
    ensures start + EmitAll(groups[0]) + EmitAll(groups[1]) == start + EmitGroups(groups, 2)
  {
    EmptyStart(start);
    EmitGroupsStep(start, groups, 0);
    EmitGroupsStep(start, groups, 1);
  }

  lemma ThreeGroups(start: Bytes, groups: seq<seq<Token>>)
    requires |groups| == 3
    ensures start + EmitAll(groups[0]) + EmitAll(groups[1]) + EmitAll(groups[2]) == start + EmitAll(Flatten(groups))
  {
    TwoGroups(start, groups);
    EmitGroupsStep(start, groups, 2);
    AllGroups(groups);
  }

  lemma FourGroups(start: Bytes, groups: seq<seq<Token>>)
    requires |groups| == 4
    ensures start + EmitAll(groups[0]) + EmitAll(groups[1]) + EmitAll(groups[2]) + EmitAll(groups[3])
            == start + EmitAll(Flatten(groups))
  {
    TwoGroups(start, groups);
    EmitGroupsStep(start, groups, 2);
    EmitGroupsStep(start, groups, 3);
    AllGroups(groups);
  }

  lemma FiveGroups(start: Bytes, groups: seq<seq<Token>>)
    requires |groups| == 5
    ensures start + EmitAll(groups[0]) + EmitAll(groups[1]) + EmitAll(groups[2]) + EmitAll(groups[3])
            + EmitAll(groups[4]) == start + EmitAll(Flatten(groups))
  {
    TwoGroups(start, groups);
    EmitGroupsStep(start, groups, 2);
    EmitGroupsStep(start, groups, 3);
    EmitGroupsStep(start, groups, 4);
    AllGroups(groups);
  }

  lemma SixGroups(start: Bytes, groups: seq<seq<Token>>)
    requires |groups| == 6
    ensures start + EmitAll(groups[0]) + EmitAll(groups[1]) + EmitAll(groups[2]) + EmitAll(groups[3])
            + EmitAll(groups[4]) + EmitAll(groups[5]) == start + EmitAll(Flatten(groups))
  {
    TwoGroups(start, groups);
    EmitGroupsStep(start, groups, 2);
    EmitGroupsStep(start, groups, 3);
    EmitGroupsStep(start, groups, 4);
    EmitGroupsStep(start, groups, 5);
    AllGroups(groups);
  }

  /** _cached_size_ of a message and of the messages nested in it, which it owns. */
  datatype CachedSizes = CachedSizes(size: nat, nested: seq<CachedSizes>)

  /** The sizes the generated ByteSize functions add for one field. */
  function BytesFieldSize(field: Option<Bytes>): nat {
    if field.Some? then 1 + VarintSize(|field.value|) + |field.value| else 0
  }

  function Int32FieldSize(field: Option<int32>): nat {
    if field.Some? then 1 + VarintSize(SignExtend(field.value)) else 0
  }

  function BoolFieldSize(field: Option<bool>): nat {
    if field.Some? then 1 + 1 else 0
  }

  lemma OneByteTag(num: nat, kind: nat)
    requires num < 16 && kind < 8
    ensures |Varint(num * 8 + kind)| == 1
  {
  }

  lemma EmitOne(t: Token)
    ensures EmitAll([t]) == t.Emit()
  {
    assert [t][1..] == [] && EmitAll([]) == [];
  }

  lemma FieldSizesAreLengths(num: nat, b: Option<Bytes>, i: Option<int32>, flag: Option<bool>)
    requires num < 16 && |EmitAll(BytesField(num, b))| < TWO_31
    ensures BytesFieldSize(b) == |EmitAll(BytesField(num, b))|
    ensures Int32FieldSize(i) == |EmitAll(Int32Field(num, i))|
    ensures BoolFieldSize(flag) == |EmitAll(BoolField(num, flag))|
  {
    OneByteTag(num, 0);
    OneByteTag(num, 2);
    if b.Some? {
      EmitOne(LenField(num, b.value));
      PayloadWithinEmission(LenField(num, b.value));
      VarintSizeIsLength(|b.value|);
    }
    if i.Some? {
      EmitOne(VarintField(num, SignExtend(i.value)));
      VarintSizeIsLength(SignExtend(i.value));
    }
    if flag.Some? {
      EmitOne(VarintField(num, if flag.value then 1 else 0));
    }
  }

  /** The first n elements of a repeated message field: tag, length prefix and bytes of each. */
  function Prefixed<C>(num: nat, bytesOf: C -> Bytes, cs: seq<C>, n: nat): Bytes
    requires n <= |cs|
  {
    if n == 0 then []
    else
      var piece := bytesOf(cs[n - 1]);
      Prefixed(num, bytesOf, cs, n - 1) + Varint(num * 8 + 2) + Varint(|piece|) + piece
  }

  /** What the ByteSize functions add for the first n elements, besides one tag byte each. */
  function PrefixedSize(sizes: seq<nat>, n: nat): nat
    requires n <= |sizes|
  {
    if n == 0 then 0 else PrefixedSize(sizes, n - 1) + VarintSize(sizes[n - 1]) + sizes[n - 1]
  }

  function SizesOf<C>(bytesOf: C -> Bytes, cs: seq<C>): (sizes: seq<nat>)
    ensures |sizes| == |cs| && forall i :: 0 <= i < |cs| ==> sizes[i] == |bytesOf(cs[i])|
  {
    seq(|cs|, i requires 0 <= i < |cs| => |bytesOf(cs[i])|)
  }

  lemma PrefixedStep<C>(start: Bytes, num: nat, bytesOf: C -> Bytes, cs: seq<C>, i: nat)
    requires i < |cs|
    ensures start + Prefixed(num, bytesOf, cs, i) + Varint(num * 8 + 2) + Varint(|bytesOf(cs[i])|) + bytesOf(cs[i])
            == start + Prefixed(num, bytesOf, cs, i + 1)
  {
    var piece := bytesOf(cs[i]);
    FourPieces(start, Prefixed(num, bytesOf, cs, i), Varint(num * 8 + 2), Varint(|piece|), piece);
  }

  lemma PieceEmitted(done: Bytes, num: nat, piece: Bytes)
    ensures done + Varint(num * 8 + 2) + Varint(|piece|) + piece == done + LenField(num, piece).Emit()
  {
    ConcatAssociates(done, Varint(num * 8 + 2), Varint(|piece|) + piece);
    ConcatAssociates(done + Varint(num * 8 + 2), Varint(|piece|), piece);
  }

  lemma NestedFieldsGrow<C>(num: nat, bytesOf: C -> Bytes, cs: seq<C>, n: nat)
    requires n < |cs|
    ensures EmitAll(NestedFields(num, bytesOf, cs[..n + 1]))
            == EmitAll(NestedFields(num, bytesOf, cs[..n])) + LenField(num, bytesOf(cs[n])).Emit()
  {
    var t := LenField(num, bytesOf(cs[n]));
    assert NestedFields(num, bytesOf, cs[..n + 1]) == NestedFields(num, bytesOf, cs[..n]) + [t];
    EmitAllConcat(NestedFields(num, bytesOf, cs[..n]), [t]);
    EmitOne(t);
  }

  lemma NothingNested<C>(num: nat, bytesOf: C -> Bytes, cs: seq<C>)
    ensures EmitAll(NestedFields(num, bytesOf, cs[..0])) == []
  {
  }

  lemma {:induction false} PrefixedIsNested<C>(num: nat, bytesOf: C -> Bytes, cs: seq<C>, n: nat)
    requires n <= |cs|
    ensures Prefixed(num, bytesOf, cs, n) == EmitAll(NestedFields(num, bytesOf, cs[..n]))
  {
    hide EmitAll;
    hide Varint;
    hide NestedFields;
    if n == 0 {
      NothingNested(num, bytesOf, cs);
    } else {
      PrefixedIsNested(num, bytesOf, cs, n - 1);
      NestedFieldsGrow(num, bytesOf, cs, n - 1);
      PieceEmitted(Prefixed(num, bytesOf, cs, n - 1), num, bytesOf(cs[n - 1]));
    }
  }

  lemma AllPrefixed<C>(num: nat, bytesOf: C -> Bytes, cs: seq<C>)
    ensures Prefixed(num, bytesOf, cs, |cs|) == EmitAll(NestedFields(num, bytesOf, cs))
  {
    PrefixedIsNested(num, bytesOf, cs, |cs|);
    assert cs[..|cs|] == cs;
  }

  lemma {:induction false} PrefixedLength<C>(num: nat, bytesOf: C -> Bytes, cs: seq<C>, n: nat)
    requires num < 16 && n <= |cs|
    ensures |Prefixed(num, bytesOf, cs, n)| == n + PrefixedSize(SizesOf(bytesOf, cs), n)
    ensures forall k :: 0 <= k < n ==> |bytesOf(cs[k])| <= |Prefixed(num, bytesOf, cs, n)|
  {
    if n > 0 {
      PrefixedLength(num, bytesOf, cs, n - 1);
      OneByteTag(num, 2);
      VarintSizeIsLength(|bytesOf(cs[n - 1])|);
    }
  }

  /** The size of a whole repeated field, and of its elements. */
  lemma NestedSize<C>(num: nat, bytesOf: C -> Bytes, cs: seq<C>)
    requires num < 16
    ensures |EmitAll(NestedFields(num, bytesOf, cs))| == |cs| + PrefixedSize(SizesOf(bytesOf, cs), |cs|)
    ensures forall k :: 0 <= k < |cs| ==> |bytesOf(cs[k])| <= |EmitAll(NestedFields(num, bytesOf, cs))|
  {
    AllPrefixed(num, bytesOf, cs);
    PrefixedLength(num, bytesOf, cs, |cs|);
  }

  lemma FourPieces(start: Bytes, a: Bytes, b: Bytes, c: Bytes, d: Bytes)
    ensures start + a + b + c + d == start + (a + b + c + d)
  {
    ConcatAssociates(start, a, b);
    ConcatAssociates(start, a + b, c);
    ConcatAssociates(start, a + b + c, d);
  }
}
