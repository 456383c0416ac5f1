/**
 The generated classes FrameItem and Frame (Frame.pb.cc): in-place parsing with expected-tag
 shortcuts, sizing that caches, and serialising from cached sizes, against module FrameCodec.
 */
module FrameProto {
  import opened Wrappers
  import opened Wire
  import opened CodedStreams
  import FrameCodec

  // ---------------------------------------------------------------- FrameItem

  /** Where the case for `tag` goes on. */
  function ItemCase(tag: nat): (next: Expectation)
    ensures OneByteTags(next.tags)
  {
    if tag == 8 then Expect([18], false)
    else if tag == 18 then Expect([26], false)
    else if tag == 26 then Expect([], true)
    else ANYTHING
  }

  class FrameItem {
    /** The field members; a has-bit is a field that is not None. */
    var fields: FrameCodec.FrameItem
    var cachedSize: nat

    constructor ()
      ensures fields == FrameCodec.NO_ITEM
    {
      fields, cachedSize := FrameCodec.NO_ITEM, 0;
    }

    /** The switch: the case for `tag`, or the unknown fields. */
    method TakeField(tag: nat, input: CodedInputStream) returns (ok: bool)
      requires input.Valid()
      modifies this, input`position
      ensures input.Valid()
      ensures TakesField(FrameCodec.ApplyItem, old(fields), tag, old(input.Rest()), ok, fields, input.Rest())
    {
      if tag == 8 {
        var value := input.ReadInt32();
        if value.None? {
          return false;
        }
        if FrameCodec.ItemTypeIsValid(value.value) {
          fields := fields.(typ := value);
        } else {
          fields := fields.(unknown := fields.unknown + [VarintField(1, SignExtend(value.value))]);
        }
      } else if tag == 18 {
        var data := input.ReadBytes();
        if data.None? {
          return false;
        }
        fields := fields.(data := data);
      } else if tag == 26 {
        var identifier := input.ReadBytes();
        if identifier.None? {
          return false;
        }
        fields := fields.(identifier := identifier);
      } else {
        var field := input.SkipField(tag);
        if field.None? {
          return false;
        }
        fields := fields.(unknown := fields.unknown + [field.value]);
      }
      return true;
    }

    /** One pass of the loop. `pending` is a tag already taken by ExpectTag: no tag is read then. */
    method Step(input: CodedInputStream, pending: nat) returns (pass: Pass)
      requires input.Valid() && !input.legitimateMessageEnd
      modifies this, input
      ensures input.Valid() && input.limit == old(input.limit)
      ensures Passes(FrameCodec.ApplyItem, ParseFrom(FrameCodec.ApplyItem, old(fields), pending, old(input.Rest())),
                     pass, fields, input.Rest(), input.legitimateMessageEnd)
      ensures pass.Again? ==> Left(input.Rest(), pass.pending) < Left(old(input.Rest()), pending)
    {
      var tag := NextTag(input, pending, FrameCodec.ApplyItem, fields);
      if tag == 0 || tag % 8 == 4 {
        return Return(true);
      }
      ghost var before, bytes := fields, input.Rest();
      var ok := TakeField(tag, input);
      FieldTaken(FrameCodec.ApplyItem, before, tag, bytes, ok, fields, input.Rest());
      if !ok {
        return Return(false);
      }
      var next, done := Follow(input, ItemCase(tag), FrameCodec.ApplyItem, fields);
      if done {
        return Return(true);
      }
      return Again(next);
    }

    method MergePartialFromCodedStream(input: CodedInputStream) returns (ok: bool)
      requires input.Valid() && !input.legitimateMessageEnd
      modifies this, input
      ensures input.Valid() && input.limit == old(input.limit)
      ensures Passes(FrameCodec.ApplyItem, ParseWith(FrameCodec.ApplyItem, old(fields), old(input.Rest())),
                     Return(ok), fields, input.Rest(), input.legitimateMessageEnd)
    {
      ghost var plain := ParseWith(FrameCodec.ApplyItem, fields, input.Rest());
      var pass := Again(0);
      while pass.Again?
        invariant input.Valid() && input.limit == old(input.limit)
        invariant Passes(FrameCodec.ApplyItem, plain, pass, fields, input.Rest(), input.legitimateMessageEnd)
        decreases pass.Again?, if pass.Again? then Left(input.Rest(), pass.pending) else 0
      {
        pass := Step(input, pass.pending);
      }
      return pass.ok;
    }

    /** ReadMessageNoVirtual: a length prefix, then the message within that many bytes. */
    method ReadMessage(input: CodedInputStream) returns (ok: bool)
      requires input.Valid() && !input.legitimateMessageEnd
      modifies this, input
      ensures input.Valid() && (ok ==> !input.legitimateMessageEnd && input.limit == old(input.limit))
      ensures ReadsMessage(FrameCodec.ApplyItem, old(fields), old(input.Rest()), ok, fields, input.Rest())
    {
      var outer := input.EnterMessage();
      if outer.None? {
        return false;
      }
      ok := MergePartialFromCodedStream(input);
      if !ok || !input.legitimateMessageEnd {
        return false;
      }
      input.LeaveMessage(outer.value);
    }

    method ByteSize() returns (totalSize: nat)
      requires |fields.Bytes()| < TWO_31
      modifies `cachedSize
      ensures totalSize == cachedSize == |fields.Bytes()|
    {
      cachedSize := SizeItem(fields);
      totalSize := cachedSize;
    }

    method SerializeWithCachedSizes(output: CodedOutputStream)
      modifies output
      ensures output.bytes == old(output.bytes) + fields.Bytes()
    {
      WriteItem(fields, output);
    }

    method MergeFrom(from: FrameItem)
      requires from != this
      modifies `fields
      ensures fields == old(fields).Merge(from.fields)
    {
      if from.fields.typ.Some? {
        fields := fields.(typ := from.fields.typ);
      }
      if from.fields.data.Some? {
        fields := fields.(data := from.fields.data);
      }
      if from.fields.identifier.Some? {
        fields := fields.(identifier := from.fields.identifier);
      }
      fields := fields.(unknown := fields.unknown + from.fields.unknown);
    }
  }

  method SizeItem(v: FrameCodec.FrameItem) returns (totalSize: nat)
    requires |v.Bytes()| < TWO_31
    ensures totalSize == |v.Bytes()|
  {
    totalSize := Int32FieldSize(v.typ);
    totalSize := totalSize + BytesFieldSize(v.data);
    totalSize := totalSize + BytesFieldSize(v.identifier);
    totalSize := totalSize + |EmitAll(v.unknown)|;
    FourGroups([], v.Fields());
    FieldSizesAreLengths(1, None, v.typ, None);
    FieldSizesAreLengths(2, v.data, None, None);
    FieldSizesAreLengths(3, v.identifier, None, None);
  }

  method WriteItem(v: FrameCodec.FrameItem, output: CodedOutputStream)
    modifies output
    ensures output.bytes == old(output.bytes) + v.Bytes()
  {
    output.WriteInt32Field(1, v.typ);
    output.WriteBytesField(2, v.data);
    output.WriteBytesField(3, v.identifier);
    output.WriteUnknown(v.unknown);
    FourGroups(old(output.bytes), v.Fields());
  }

  // ---------------------------------------------------------------- Frame

  function FrameCase(tag: nat): (next: Expectation)
    ensures OneByteTags(next.tags)
  {
    if tag == 10 then Expect([18], false) else if tag == 18 then Expect([18], true) else ANYTHING
  }

  lemma FrameIdentifierTaken(m: FrameCodec.Frame, bs: Bytes, id: Option<Bytes>, rest: Bytes)
    requires ReadsBytes(bs, id, rest)
    ensures TakesField(FrameCodec.ApplyFrame, m, 10, bs, id.Some?, m.(identifier := id), rest)
  {
  }

  /** The case of field 2: a nested item, appended. */
  lemma FrameItemTaken(m: FrameCodec.Frame, bs: Bytes, ok: bool, item: FrameCodec.FrameItem, rest: Bytes)
    requires ReadsMessage(FrameCodec.ApplyItem, FrameCodec.NO_ITEM, bs, ok, item, rest)
    ensures TakesField(FrameCodec.ApplyFrame, m, 18, bs, ok, m.(items := m.items + [item]), rest)
  {
  }

  lemma FrameUnknownTaken(m: FrameCodec.Frame, tag: nat, bs: Bytes, t: Option<Token>, rest: Bytes)
    requires tag != 10 && tag != 18 && ReadsToken(tag, bs, t, rest)
    ensures t.None? ==> TakesField(FrameCodec.ApplyFrame, m, tag, bs, false, m, rest)
    ensures t.Some? ==> TakesField(FrameCodec.ApplyFrame, m, tag, bs, true, m.(unknown := m.unknown + [t.value]), rest)
  {
  }

  class Frame {
    var fields: FrameCodec.Frame
    var cache: CachedSizes

    constructor ()
      ensures fields == FrameCodec.NO_FRAME
    {
      fields, cache := FrameCodec.NO_FRAME, CachedSizes(0, []);
    }

    /** The switch: the case for `tag`, or the unknown fields. */
    method TakeField(tag: nat, input: CodedInputStream) returns (ok: bool)
      requires input.Valid() && !input.legitimateMessageEnd
      modifies this, input
      ensures input.Valid() && (ok ==> !input.legitimateMessageEnd && input.limit == old(input.limit))
      ensures TakesField(FrameCodec.ApplyFrame, old(fields), tag, old(input.Rest()), ok, fields, input.Rest())
    {
      ghost var m, bytes := fields, input.Rest();
      ok := true;
      if tag == 10 {
        var v := input.ReadBytes();
        FrameIdentifierTaken(m, bytes, v, input.Rest());
        if v.None? {
          return false;
        }
        fields := fields.(identifier := v);
      } else if tag == 18 {
        var x := new FrameItem();
        ok := x.ReadMessage(input);
        FrameItemTaken(m, bytes, ok, x.fields, input.Rest());
        fields := fields.(items := fields.items + [x.fields]);
      } else {
        var field := input.SkipField(tag);
        FrameUnknownTaken(m, tag, bytes, field, input.Rest());
        if field.None? {
          return false;
        }
        fields := fields.(unknown := fields.unknown + [field.value]);
      }
    }

    /** One pass of the loop. `pending` is a tag already taken by ExpectTag: no tag is read then. */
    method Step(input: CodedInputStream, pending: nat) returns (pass: Pass)
      requires input.Valid() && !input.legitimateMessageEnd
      modifies this, input
      ensures input.Valid() && (pass != Return(false) ==> input.limit == old(input.limit))
      ensures Passes(FrameCodec.ApplyFrame, ParseFrom(FrameCodec.ApplyFrame, old(fields), pending, old(input.Rest())),
                     pass, fields, input.Rest(), input.legitimateMessageEnd)
      ensures pass.Again? ==> Left(input.Rest(), pass.pending) < Left(old(input.Rest()), pending)
    {
      var tag := NextTag(input, pending, FrameCodec.ApplyFrame, fields);
      if tag == 0 || tag % 8 == 4 {
        return Return(true);
      }
      ghost var before, bytes := fields, input.Rest();
      var ok := TakeField(tag, input);
      FieldTaken(FrameCodec.ApplyFrame, before, tag, bytes, ok, fields, input.Rest());
      if !ok {
        return Return(false);
      }
      var next, done := Follow(input, FrameCase(tag), FrameCodec.ApplyFrame, fields);
      if done {
        return Return(true);
      }
      return Again(next);
    }

    method MergePartialFromCodedStream(input: CodedInputStream) returns (ok: bool)
      requires input.Valid() && !input.legitimateMessageEnd
      modifies this, input
      ensures input.Valid() && (ok ==> input.limit == old(input.limit))
      ensures Passes(FrameCodec.ApplyFrame, ParseWith(FrameCodec.ApplyFrame, old(fields), old(input.Rest())),
                     Return(ok), fields, input.Rest(), input.legitimateMessageEnd)
    {
      ghost var plain := ParseWith(FrameCodec.ApplyFrame, fields, input.Rest());
      var pass := Again(0);
      while pass.Again?
        invariant input.Valid() && (pass != Return(false) ==> input.limit == old(input.limit))
        invariant Passes(FrameCodec.ApplyFrame, plain, pass, fields, input.Rest(), input.legitimateMessageEnd)
        decreases pass.Again?, if pass.Again? then Left(input.Rest(), pass.pending) else 0
      {
        pass := Step(input, pass.pending);
      }
      return pass.ok;
    }

    /** ParseFromArray, into a cleared frame: the plain parser's frame, if it is complete. */
    method ParseFromArray(bytes: Bytes) returns (ok: bool)
      modifies this
      ensures match FrameCodec.ParseFrame(bytes)
              case None => !ok
              case Some(frame) => ok && fields == frame
    {
      fields := FrameCodec.NO_FRAME;
      var input := new CodedInputStream(bytes);
      ok := MergePartialFromCodedStream(input);
      return ok && input.legitimateMessageEnd && fields.IsInitialized();
    }

    method ByteSize() returns (totalSize: nat)
      requires |fields.Bytes()| < TWO_31
      modifies `cache
      ensures FrameIsCached(fields, cache) && totalSize == cache.size
    {
      cache := SizeFrame(fields);
      totalSize := cache.size;
    }

    /** The length prefixes come from the cached sizes. */
    method SerializeWithCachedSizes(output: CodedOutputStream)
      requires FrameIsCached(fields, cache)
      modifies output
      ensures output.bytes == old(output.bytes) + fields.Bytes()
    {
      WriteFrame(fields, cache, output);
    }

    /** SerializeToArray: sizes first, then the bytes, exactly as many as were announced. */
    method SerializeToArray() returns (bytes: Bytes)
      requires |fields.Bytes()| < TWO_31
      modifies `cache
      ensures bytes == fields.Bytes() && |bytes| == cache.size
    {
      var output := new CodedOutputStream();
      var size := ByteSize();
      SerializeWithCachedSizes(output);
      bytes := output.bytes;
    }

    method MergeFrom(from: Frame)
      requires from != this
      modifies `fields
      ensures fields == old(fields).Merge(from.fields)
    {
      fields := fields.(items := fields.items + from.fields.items);
      if from.fields.identifier.Some? {
        fields := fields.(identifier := from.fields.identifier);
      }
      fields := fields.(unknown := fields.unknown + from.fields.unknown);
    }
  }

  // ---------------------------------------------------------------- cached sizes

  /** Every cached size is the number of bytes its message writes. */
  ghost predicate FrameIsCached(v: FrameCodec.Frame, cache: CachedSizes) {
    && cache.size == |v.Bytes()| && |cache.nested| == |v.items|
    && forall i :: 0 <= i < |v.items| ==> cache.nested[i].size == |v.items[i].Bytes()|
  }

  lemma FrameSize(v: FrameCodec.Frame)
    requires |v.Bytes()| < TWO_31
    ensures |v.Bytes()| == BytesFieldSize(v.identifier) + |v.items|
                           + PrefixedSize(SizesOf(FrameCodec.ItemBytes, v.items), |v.items|) + |EmitAll(v.unknown)|
    ensures forall k :: 0 <= k < |v.items| ==> |v.items[k].Bytes()| < TWO_31
  {
    ThreeGroups([], v.Fields());
    FieldSizesAreLengths(1, v.identifier, None, None);
    NestedSize(2, FrameCodec.ItemBytes, v.items);
  }

  method SizeItems(cs: seq<FrameCodec.FrameItem>) returns (total: nat, nested: seq<CachedSizes>)
    requires forall k :: 0 <= k < |cs| ==> |cs[k].Bytes()| < TWO_31
    ensures total == PrefixedSize(SizesOf(FrameCodec.ItemBytes, cs), |cs|) && |nested| == |cs|
    ensures forall k :: 0 <= k < |cs| ==> nested[k].size == |cs[k].Bytes()|
  {
    hide FrameCodec.FrameItem.Bytes;
    ghost var sizes := SizesOf(FrameCodec.ItemBytes, cs);
    total, nested := 0, [];
    while |nested| < |cs|
      invariant |nested| <= |cs| && total == PrefixedSize(sizes, |nested|)
      invariant forall k :: 0 <= k < |nested| ==> nested[k].size == |cs[k].Bytes()|
    {
      var element := SizeItem(cs[|nested|]);
      assert element == |FrameCodec.ItemBytes(cs[|nested|])| == sizes[|nested|];
      total := total + VarintSize(element) + element;
      nested := nested + [CachedSizes(element, [])];
    }
  }

  method SizeFrame(v: FrameCodec.Frame) returns (cache: CachedSizes)
    requires |v.Bytes()| < TWO_31
    ensures FrameIsCached(v, cache)
  {
    FrameSize(v);
    var totalSize := BytesFieldSize(v.identifier) + 1 * |v.items|;
    var total, nested := SizeItems(v.items);
    totalSize := totalSize + total + |EmitAll(v.unknown)|;
    cache := CachedSizes(totalSize, nested);
  }

  method WriteItems(cs: seq<FrameCodec.FrameItem>, nested: seq<CachedSizes>, output: CodedOutputStream)
    requires |nested| == |cs| && forall k :: 0 <= k < |cs| ==> nested[k].size == |cs[k].Bytes()|
    modifies output
    ensures output.bytes == old(output.bytes) + EmitAll(NestedFields(2, FrameCodec.ItemBytes, cs))
  {
    ghost var start := output.bytes;
    EmptyStart(start);
    var i := 0;
    while i < |cs|
      invariant i <= |cs| && output.bytes == start + Prefixed(2, FrameCodec.ItemBytes, cs, i)
    {
      output.WriteMessageHeader(2, nested[i].size);
      WriteItem(cs[i], output);
      PrefixedStep(start, 2, FrameCodec.ItemBytes, cs, i);
      i := i + 1;
    }
    AllPrefixed(2, FrameCodec.ItemBytes, cs);
  }

  method WriteFrame(v: FrameCodec.Frame, cache: CachedSizes, output: CodedOutputStream)
    requires FrameIsCached(v, cache)
    modifies output
    ensures output.bytes == old(output.bytes) + v.Bytes()
  {
    output.WriteBytesField(1, v.identifier);
    WriteItems(v.items, cache.nested, output);
    output.WriteUnknown(v.unknown);
    ThreeGroups(old(output.bytes), v.Fields());
  }
}
