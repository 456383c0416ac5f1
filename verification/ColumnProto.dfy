/** The generated class ColumnValue (Column.pb.cc), against module ColumnCodec. */
module ColumnProto {
  import opened Wrappers
  import opened Wire
  import opened CodedStreams
  import ColumnCodec

  /** Where the case for `tag` goes on. */
  function ColumnValueCase(tag: nat): (next: Expectation)
    ensures OneByteTags(next.tags)
  {
    if tag == 10 then Expect([16], false)
    else if tag == 16 then Expect([24], false)
    else if tag == 24 then Expect([32], false)
    else if tag == 32 then Expect([42], false)
    else if tag == 42 then Expect([], true)
    else ANYTHING
  }

  lemma NameTaken(m: ColumnCodec.ColumnValue, bs: Bytes, name: Option<Bytes>, rest: Bytes)
    requires ReadsBytes(bs, name, rest)
    ensures TakesField(ColumnCodec.ApplyColumnValue, m, 10, bs, name.Some?, m.(name := name), rest)
  {
  }

  lemma TypeTaken(m: ColumnCodec.ColumnValue, bs: Bytes, v: Option<nat>, rest: Bytes)
    requires ReadsVarint(bs, v, rest)
    ensures v.None? ==> TakesField(ColumnCodec.ApplyColumnValue, m, 16, bs, false, m, rest)
    ensures v.Some? ==>
              TakesField(ColumnCodec.ApplyColumnValue, m, 16, bs, true,
                         if ColumnCodec.ColumnTypeIsValid(AsInt32(v.value)) then m.(typ := Some(AsInt32(v.value)))
                         else m.(unknown := m.unknown + [VarintField(2, SignExtend(AsInt32(v.value)))]), rest)
  {
  }

  lemma KeyFlagTaken(m: ColumnCodec.ColumnValue, bs: Bytes, v: Option<nat>, rest: Bytes)
    requires ReadsVarint(bs, v, rest)
    ensures v.None? ==> TakesField(ColumnCodec.ApplyColumnValue, m, 24, bs, false, m, rest)
    ensures v.None? ==> TakesField(ColumnCodec.ApplyColumnValue, m, 32, bs, false, m, rest)
    ensures v.Some? ==>
              TakesField(ColumnCodec.ApplyColumnValue, m, 24, bs, true, m.(primaryKey := Some(v.value != 0)), rest)
    ensures v.Some? ==>
              TakesField(ColumnCodec.ApplyColumnValue, m, 32, bs, true, m.(distributionKey := Some(v.value != 0)), rest)
  {
  }

  lemma ValueTaken(m: ColumnCodec.ColumnValue, bs: Bytes, value: Option<Bytes>, rest: Bytes)
    requires ReadsBytes(bs, value, rest)
    ensures TakesField(ColumnCodec.ApplyColumnValue, m, 42, bs, value.Some?, m.(value := value), rest)
  {
  }

  lemma UnknownTaken(m: ColumnCodec.ColumnValue, tag: nat, bs: Bytes, t: Option<Token>, rest: Bytes)
    requires tag != 10 && tag != 16 && tag != 24 && tag != 32 && tag != 42 && ReadsToken(tag, bs, t, rest)
    ensures t.None? ==> TakesField(ColumnCodec.ApplyColumnValue, m, tag, bs, false, m, rest)
    ensures t.Some? ==>
              TakesField(ColumnCodec.ApplyColumnValue, m, tag, bs, true, m.(unknown := m.unknown + [t.value]), rest)
  {
  }

  class ColumnValue {
    /** The field members; a has-bit is a field that is not None. */
    var fields: ColumnCodec.ColumnValue
    var cachedSize: nat

    constructor ()
      ensures fields == ColumnCodec.NO_COLUMN_VALUE
    {
      fields, cachedSize := ColumnCodec.NO_COLUMN_VALUE, 0;
    }

    /** The switch: the case for `tag`, or the unknown fields. */
    method TakeField(tag: nat, input: CodedInputStream) returns (ok: bool)
      requires input.Valid()
      modifies this, input`position
      ensures input.Valid()
      ensures TakesField(ColumnCodec.ApplyColumnValue, old(fields), tag, old(input.Rest()), ok, fields, input.Rest())
    {
      ghost var m, bytes := fields, input.Rest();
      ok := true;
      if tag == 10 {
        var name := input.ReadBytes();
        NameTaken(m, bytes, name, input.Rest());
        if name.None? {
          return false;
        }
        fields := fields.(name := name);
      } else if tag == 16 {
        var read := input.ReadVarint64();
        TypeTaken(m, bytes, read, input.Rest());
        if read.None? {
          return false;
        }
        var value := AsInt32(read.value);
        if ColumnCodec.ColumnTypeIsValid(value) {
          fields := fields.(typ := Some(value));
        } else {
          fields := fields.(unknown := fields.unknown + [VarintField(2, SignExtend(value))]);
        }
      } else if tag == 24 {
        var read := input.ReadVarint64();
        KeyFlagTaken(m, bytes, read, input.Rest());
        if read.None? {
          return false;
        }
        fields := fields.(primaryKey := Some(read.value != 0));
      } else if tag == 32 {
        var read := input.ReadVarint64();
        KeyFlagTaken(m, bytes, read, input.Rest());
        if read.None? {
          return false;
        }
        fields := fields.(distributionKey := Some(read.value != 0));
      } else if tag == 42 {
        var value := input.ReadBytes();
        ValueTaken(m, bytes, value, input.Rest());
        if value.None? {
          return false;
        }
        fields := fields.(value := value);
      } else {
        var field := input.SkipField(tag);
        UnknownTaken(m, tag, bytes, field, input.Rest());
        if field.None? {
          return false;
        }
        fields := fields.(unknown := fields.unknown + [field.value]);
      }
    }

    /** One pass of the loop. `pending` is a tag already taken by ExpectTag: no tag is read then. */
    method Step(input: CodedInputStream, pending: nat) returns (pass: Pass)
      requires input.Valid() && !input.legitimateMessageEnd
      modifies this, input
      ensures input.Valid() && input.limit == old(input.limit)
      ensures Passes(ColumnCodec.ApplyColumnValue, ParseFrom(ColumnCodec.ApplyColumnValue, old(fields), pending,
                old(input.Rest())),
                     pass, fields, input.Rest(), input.legitimateMessageEnd)
      ensures pass.Again? ==> Left(input.Rest(), pass.pending) < Left(old(input.Rest()), pending)
    {
      var tag := NextTag(input, pending, ColumnCodec.ApplyColumnValue, fields);
      if tag == 0 || tag % 8 == 4 {
        return Return(true);
      }
      ghost var before, bytes := fields, input.Rest();
      var ok := TakeField(tag, input);
      FieldTaken(ColumnCodec.ApplyColumnValue, before, tag, bytes, ok, fields, input.Rest());
      if !ok {
        return Return(false);
      }
      var next, done := Follow(input, ColumnValueCase(tag), ColumnCodec.ApplyColumnValue, fields);
      if done {
        return Return(true);
      }
      return Again(next);
    }

    method MergePartialFromCodedStream(input: CodedInputStream) returns (ok: bool)
      requires input.Valid() && !input.legitimateMessageEnd
      modifies this, input
      ensures input.Valid() && input.limit == old(input.limit)
      ensures Passes(ColumnCodec.ApplyColumnValue, ParseWith(ColumnCodec.ApplyColumnValue, old(fields),
                old(input.Rest())),
                     Return(ok), fields, input.Rest(), input.legitimateMessageEnd)
    {
      ghost var plain := ParseWith(ColumnCodec.ApplyColumnValue, fields, input.Rest());
      var pass := Again(0);
      while pass.Again?
        invariant input.Valid() && input.limit == old(input.limit)
        invariant Passes(ColumnCodec.ApplyColumnValue, plain, pass, fields, input.Rest(), input.legitimateMessageEnd)
        decreases pass.Again?, if pass.Again? then Left(input.Rest(), pass.pending) else 0
      {
        pass := Step(input, pass.pending);
      }
      return pass.ok;
    }

    /** ReadMessageNoVirtual: a length prefix, then the message within that many bytes. */
    method ReadMessage(input: CodedInputStream) returns (ok: bool)
      requires input.Valid() && !input.legitimateMessageEnd
      modifies this, input
      ensures input.Valid() && (ok ==> !input.legitimateMessageEnd && input.limit == old(input.limit))
      ensures ReadsMessage(ColumnCodec.ApplyColumnValue, old(fields), old(input.Rest()), ok, fields, input.Rest())
    {
      var outer := input.EnterMessage();
      if outer.None? {
        return false;
      }
      ok := MergePartialFromCodedStream(input);
      if !ok || !input.legitimateMessageEnd {
        return false;
      }
      input.LeaveMessage(outer.value);
    }

    method ByteSize() returns (totalSize: nat)
      requires |fields.Bytes()| < TWO_31
      modifies `cachedSize
      ensures totalSize == cachedSize == |fields.Bytes()|
    {
      cachedSize := SizeColumnValue(fields);
      totalSize := cachedSize;
    }

    method SerializeWithCachedSizes(output: CodedOutputStream)
      modifies output
      ensures output.bytes == old(output.bytes) + fields.Bytes()
    {
      WriteColumnValue(fields, output);
    }

    method MergeFrom(from: ColumnValue)
      requires from != this
      modifies `fields
      ensures fields == old(fields).Merge(from.fields)
    {
      if from.fields.name.Some? {
        fields := fields.(name := from.fields.name);
      }
      if from.fields.typ.Some? {
        fields := fields.(typ := from.fields.typ);
      }
      if from.fields.primaryKey.Some? {
        fields := fields.(primaryKey := from.fields.primaryKey);
      }
      if from.fields.distributionKey.Some? {
        fields := fields.(distributionKey := from.fields.distributionKey);
      }
      if from.fields.value.Some? {
        fields := fields.(value := from.fields.value);
      }
      fields := fields.(unknown := fields.unknown + from.fields.unknown);
    }
  }

  method SizeColumnValue(v: ColumnCodec.ColumnValue) returns (totalSize: nat)
    requires |v.Bytes()| < TWO_31
    ensures totalSize == |v.Bytes()|
  {
    totalSize := BytesFieldSize(v.name);
    totalSize := totalSize + Int32FieldSize(v.typ);
    totalSize := totalSize + BoolFieldSize(v.primaryKey);
    totalSize := totalSize + BoolFieldSize(v.distributionKey);
    totalSize := totalSize + BytesFieldSize(v.value);
    totalSize := totalSize + |EmitAll(v.unknown)|;
    SixGroups([], v.Fields());
    FieldSizesAreLengths(1, v.name, None, None);
    FieldSizesAreLengths(2, None, v.typ, None);
    FieldSizesAreLengths(3, None, None, v.primaryKey);
    FieldSizesAreLengths(4, None, None, v.distributionKey);
    FieldSizesAreLengths(5, v.value, None, None);
  }

  method WriteColumnValue(v: ColumnCodec.ColumnValue, output: CodedOutputStream)
    modifies output
    ensures output.bytes == old(output.bytes) + v.Bytes()
  {
    output.WriteBytesField(1, v.name);
    output.WriteInt32Field(2, v.typ);
    output.WriteBoolField(3, v.primaryKey);
    output.WriteBoolField(4, v.distributionKey);
    output.WriteBytesField(5, v.value);
    output.WriteUnknown(v.unknown);
    SixGroups(old(output.bytes), v.Fields());
  }
}
