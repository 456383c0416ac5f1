/**
 The generated classes Row, OperationResult and Result (Result.pb.cc), against module ResultCodec.
 A repeated message field owns its elements, so the model keeps them by value in `fields` and
 their cached sizes, level by level, in a tree beside it.
 */
module ResultProto {
  import opened Wrappers
  import opened Wire
  import opened CodedStreams
  import ColumnCodec
  import ColumnProto
  import FrameCodec
  import ResultCodec

  // ---------------------------------------------------------------- Row

  /** Where the case for `tag` goes on. */
  function RowCase(tag: nat): (next: Expectation)
    ensures OneByteTags(next.tags)
  {
    if tag == 10 then Expect([10], true) else ANYTHING
  }

  lemma RowColumnTaken(m: ResultCodec.Row, bs: Bytes, ok: bool, x: ColumnCodec.ColumnValue, rest: Bytes)
    requires ReadsMessage(ColumnCodec.ApplyColumnValue, ColumnCodec.NO_COLUMN_VALUE, bs, ok, x, rest)
    ensures TakesField(ResultCodec.ApplyRow, m, 10, bs, ok, m.(columns := m.columns + [x]), rest)
  {
  }

  lemma RowUnknownTaken(m: ResultCodec.Row, tag: nat, bs: Bytes, t: Option<Token>, rest: Bytes)
    requires tag != 10 && ReadsToken(tag, bs, t, rest)
    ensures t.None? ==> TakesField(ResultCodec.ApplyRow, m, tag, bs, false, m, rest)
    ensures t.Some? ==> TakesField(ResultCodec.ApplyRow, m, tag, bs, true, m.(unknown := m.unknown + [t.value]), rest)
  {
  }

  class Row {
    var fields: ResultCodec.Row

    constructor ()
      ensures fields == ResultCodec.NO_ROW
    {
      fields := ResultCodec.NO_ROW;
    }

    /** The switch: the case for `tag`, or the unknown fields. */
    method TakeField(tag: nat, input: CodedInputStream) returns (ok: bool)
      requires input.Valid() && !input.legitimateMessageEnd
      modifies this, input
      ensures input.Valid() && (ok ==> !input.legitimateMessageEnd && input.limit == old(input.limit))
      ensures TakesField(ResultCodec.ApplyRow, old(fields), tag, old(input.Rest()), ok, fields, input.Rest())
    {
      ghost var m, bytes := fields, input.Rest();
      ok := true;
      if tag == 10 {
        var x := new ColumnProto.ColumnValue();
        ok := x.ReadMessage(input);
        RowColumnTaken(m, bytes, ok, x.fields, input.Rest());
        fields := fields.(columns := fields.columns + [x.fields]);
      } else {
        var field := input.SkipField(tag);
        RowUnknownTaken(m, tag, bytes, field, input.Rest());
        if field.None? {
          return false;
        }
        fields := fields.(unknown := fields.unknown + [field.value]);
      }
    }

    /** One pass of the loop. `pending` is a tag already taken by ExpectTag: no tag is read then. */
    method Step(input: CodedInputStream, pending: nat) returns (pass: Pass)
      requires input.Valid() && !input.legitimateMessageEnd
      modifies this, input
      ensures input.Valid() && (pass != Return(false) ==> input.limit == old(input.limit))
      ensures Passes(ResultCodec.ApplyRow, ParseFrom(ResultCodec.ApplyRow, old(fields), pending, old(input.Rest())),
                     pass, fields, input.Rest(), input.legitimateMessageEnd)
      ensures pass.Again? ==> Left(input.Rest(), pass.pending) < Left(old(input.Rest()), pending)
    {
      var tag := NextTag(input, pending, ResultCodec.ApplyRow, fields);
      if tag == 0 || tag % 8 == 4 {
        return Return(true);
      }
      ghost var before, bytes := fields, input.Rest();
      var ok := TakeField(tag, input);
      FieldTaken(ResultCodec.ApplyRow, before, tag, bytes, ok, fields, input.Rest());
      if !ok {
        return Return(false);
      }
      var next, done := Follow(input, RowCase(tag), ResultCodec.ApplyRow, fields);
      if done {
        return Return(true);
      }
      return Again(next);
    }

    method MergePartialFromCodedStream(input: CodedInputStream) returns (ok: bool)
      requires input.Valid() && !input.legitimateMessageEnd
      modifies this, input
      ensures input.Valid() && (ok ==> input.limit == old(input.limit))
      ensures Passes(ResultCodec.ApplyRow, ParseWith(ResultCodec.ApplyRow, old(fields), old(input.Rest())),
                     Return(ok), fields, input.Rest(), input.legitimateMessageEnd)
    {
      ghost var plain := ParseWith(ResultCodec.ApplyRow, fields, input.Rest());
      var pass := Again(0);
      while pass.Again?
        invariant input.Valid() && (pass != Return(false) ==> input.limit == old(input.limit))
        invariant Passes(ResultCodec.ApplyRow, plain, pass, fields, input.Rest(), input.legitimateMessageEnd)
        decreases pass.Again?, if pass.Again? then Left(input.Rest(), pass.pending) else 0
      {
        pass := Step(input, pass.pending);
      }
      return pass.ok;
    }

    /** ReadMessageNoVirtual: a length prefix, then the message within that many bytes. */
    method ReadMessage(input: CodedInputStream) returns (ok: bool)
      requires input.Valid() && !input.legitimateMessageEnd
      modifies this, input
      ensures input.Valid() && (ok ==> !input.legitimateMessageEnd && input.limit == old(input.limit))
      ensures ReadsMessage(ResultCodec.ApplyRow, old(fields), old(input.Rest()), ok, fields, input.Rest())
    {
      var outer := input.EnterMessage();
      if outer.None? {
        return false;
      }
      ok := MergePartialFromCodedStream(input);
      if !ok || !input.legitimateMessageEnd {
        return false;
      }
      input.LeaveMessage(outer.value);
    }
  }

  // ---------------------------------------------------------------- OperationResult

  function OperationResultCase(tag: nat): (next: Expectation)
    ensures OneByteTags(next.tags)
  {
    if tag == 10 then Expect([10, 16], false) else if tag == 16 then Expect([], true) else ANYTHING
  }

  lemma OperationRowTaken(m: ResultCodec.OperationResult, bs: Bytes, ok: bool, x: ResultCodec.Row, rest: Bytes)
    requires ReadsMessage(ResultCodec.ApplyRow, ResultCodec.NO_ROW, bs, ok, x, rest)
    ensures TakesField(ResultCodec.ApplyOperationResult, m, 10, bs, ok, m.(rows := m.rows + [x]), rest)
  {
  }

  lemma OperationTypeTaken(m: ResultCodec.OperationResult, bs: Bytes, v: Option<nat>, rest: Bytes)
    requires ReadsVarint(bs, v, rest)
    ensures v.None? ==> TakesField(ResultCodec.ApplyOperationResult, m, 16, bs, false, m, rest)
    ensures v.Some? ==>
              TakesField(ResultCodec.ApplyOperationResult, m, 16, bs, true,
                         if FrameCodec.ItemTypeIsValid(AsInt32(v.value)) then m.(typ := Some(AsInt32(v.value)))
                         else m.(unknown := m.unknown + [VarintField(2, SignExtend(AsInt32(v.value)))]), rest)
  {
  }

  lemma OperationUnknownTaken(m: ResultCodec.OperationResult, tag: nat, bs: Bytes, t: Option<Token>, rest: Bytes)
    requires tag != 10 && tag != 16 && ReadsToken(tag, bs, t, rest)
    ensures t.None? ==> TakesField(ResultCodec.ApplyOperationResult, m, tag, bs, false, m, rest)
    ensures t.Some? ==>
              TakesField(ResultCodec.ApplyOperationResult, m, tag, bs, true, m.(unknown := m.unknown + [t.value]), rest)
  {
  }

  class OperationResult {
    var fields: ResultCodec.OperationResult

    constructor ()
      ensures fields == ResultCodec.NO_OPERATION_RESULT
    {
      fields := ResultCodec.NO_OPERATION_RESULT;
    }

    /** The switch: the case for `tag`, or the unknown fields. */
    method TakeField(tag: nat, input: CodedInputStream) returns (ok: bool)
      requires input.Valid() && !input.legitimateMessageEnd
      modifies this, input
      ensures input.Valid() && (ok ==> !input.legitimateMessageEnd && input.limit == old(input.limit))
      ensures TakesField(ResultCodec.ApplyOperationResult, old(fields), tag, old(input.Rest()), ok, fields,
                input.Rest())
    {
      ghost var m, bytes := fields, input.Rest();
      ok := true;
      if tag == 10 {
        var x := new Row();
        ok := x.ReadMessage(input);
        OperationRowTaken(m, bytes, ok, x.fields, input.Rest());
        fields := fields.(rows := fields.rows + [x.fields]);
      } else if tag == 16 {
        var read := input.ReadVarint64();
        OperationTypeTaken(m, bytes, read, input.Rest());
        if read.None? {
          return false;
        }
        var value := AsInt32(read.value);
        if FrameCodec.ItemTypeIsValid(value) {
          fields := fields.(typ := Some(value));
        } else {
          fields := fields.(unknown := fields.unknown + [VarintField(2, SignExtend(value))]);
        }
      } else {
        var field := input.SkipField(tag);
        OperationUnknownTaken(m, tag, bytes, field, input.Rest());
        if field.None? {
          return false;
        }
        fields := fields.(unknown := fields.unknown + [field.value]);
      }
    }

    /** One pass of the loop. `pending` is a tag already taken by ExpectTag: no tag is read then. */
    method Step(input: CodedInputStream, pending: nat) returns (pass: Pass)
      requires input.Valid() && !input.legitimateMessageEnd
      modifies this, input
      ensures input.Valid() && (pass != Return(false) ==> input.limit == old(input.limit))
      ensures Passes(ResultCodec.ApplyOperationResult, ParseFrom(ResultCodec.ApplyOperationResult, old(fields),
                pending, old(input.Rest())),
                     pass, fields, input.Rest(), input.legitimateMessageEnd)
      ensures pass.Again? ==> Left(input.Rest(), pass.pending) < Left(old(input.Rest()), pending)
    {
      var tag := NextTag(input, pending, ResultCodec.ApplyOperationResult, fields);
      if tag == 0 || tag % 8 == 4 {
        return Return(true);
      }
      ghost var before, bytes := fields, input.Rest();
      var ok := TakeField(tag, input);
      FieldTaken(ResultCodec.ApplyOperationResult, before, tag, bytes, ok, fields, input.Rest());
      if !ok {
        return Return(false);
      }
      var next, done := Follow(input, OperationResultCase(tag), ResultCodec.ApplyOperationResult, fields);
      if done {
        return Return(true);
      }
      return Again(next);
    }

    method MergePartialFromCodedStream(input: CodedInputStream) returns (ok: bool)
      requires input.Valid() && !input.legitimateMessageEnd
      modifies this, input
      ensures input.Valid() && (ok ==> input.limit == old(input.limit))
      ensures Passes(ResultCodec.ApplyOperationResult, ParseWith(ResultCodec.ApplyOperationResult, old(fields),
                old(input.Rest())),
                     Return(ok), fields, input.Rest(), input.legitimateMessageEnd)
    {
      ghost var plain := ParseWith(ResultCodec.ApplyOperationResult, fields, input.Rest());
      var pass := Again(0);
      while pass.Again?
        invariant input.Valid() && (pass != Return(false) ==> input.limit == old(input.limit))
        invariant Passes(ResultCodec.ApplyOperationResult, plain, pass, fields, input.Rest(),
                    input.legitimateMessageEnd)
        decreases pass.Again?, if pass.Again? then Left(input.Rest(), pass.pending) else 0
      {
        pass := Step(input, pass.pending);
      }
      return pass.ok;
    }

    /** ReadMessageNoVirtual: a length prefix, then the message within that many bytes. */
    method ReadMessage(input: CodedInputStream) returns (ok: bool)
      requires input.Valid() && !input.legitimateMessageEnd
      modifies this, input
      ensures input.Valid() && (ok ==> !input.legitimateMessageEnd && input.limit == old(input.limit))
      ensures ReadsMessage(ResultCodec.ApplyOperationResult, old(fields), old(input.Rest()), ok, fields, input.Rest())
    {
      var outer := input.EnterMessage();
      if outer.None? {
        return false;
      }
      ok := MergePartialFromCodedStream(input);
      if !ok || !input.legitimateMessageEnd {
        return false;
      }
      input.LeaveMessage(outer.value);
    }
  }

  // ---------------------------------------------------------------- Result

  function ResultCase(tag: nat): (next: Expectation)
    ensures OneByteTags(next.tags)
  {
    if tag == 10 then Expect([18], false)
    else if tag == 18 then Expect([18, 24], false)
    else if tag == 24 then Expect([34], false)
    else if tag == 34 then Expect([], true)
    else ANYTHING
  }

  lemma ResultIdTaken(m: ResultCodec.Result, bs: Bytes, v: Option<Bytes>, rest: Bytes)
    requires ReadsBytes(bs, v, rest)
    ensures TakesField(ResultCodec.ApplyResult, m, 10, bs, v.Some?, m.(transactionIdentifier := v), rest)
  {
  }

  lemma ResultOperationTaken(m: ResultCodec.Result, bs: Bytes, ok: bool, x: ResultCodec.OperationResult, rest: Bytes)
    requires ReadsMessage(ResultCodec.ApplyOperationResult, ResultCodec.NO_OPERATION_RESULT, bs, ok, x, rest)
    ensures TakesField(ResultCodec.ApplyResult, m, 18, bs, ok, m.(results := m.results + [x]), rest)
  {
  }

  lemma ResultErrorCodeTaken(m: ResultCodec.Result, bs: Bytes, v: Option<nat>, rest: Bytes)
    requires ReadsVarint(bs, v, rest)
    ensures v.None? ==> TakesField(ResultCodec.ApplyResult, m, 24, bs, false, m, rest)
    ensures v.Some? ==> TakesField(ResultCodec.ApplyResult, m, 24, bs, true, m.(errorCode := Some(AsInt32(v.value))),
              rest)
  {
  }

  lemma ResultErrorTextTaken(m: ResultCodec.Result, bs: Bytes, v: Option<Bytes>, rest: Bytes)
    requires ReadsBytes(bs, v, rest)
    ensures TakesField(ResultCodec.ApplyResult, m, 34, bs, v.Some?, m.(errorDescription := v), rest)
  {
  }

  lemma ResultUnknownTaken(m: ResultCodec.Result, tag: nat, bs: Bytes, t: Option<Token>, rest: Bytes)
    requires tag != 10 && tag != 18 && tag != 24 && tag != 34 && ReadsToken(tag, bs, t, rest)
    ensures t.None? ==> TakesField(ResultCodec.ApplyResult, m, tag, bs, false, m, rest)
    ensures t.Some? ==> TakesField(ResultCodec.ApplyResult, m, tag, bs, true, m.(unknown := m.unknown + [t.value]),
              rest)
  {
  }

  class Result {
    var fields: ResultCodec.Result
    var cache: CachedSizes

    constructor ()
      ensures fields == ResultCodec.NO_RESULT
    {
      fields, cache := ResultCodec.NO_RESULT, CachedSizes(0, []);
    }

    /** The switch: the case for `tag`, or the unknown fields. */
    method TakeField(tag: nat, input: CodedInputStream) returns (ok: bool)
      requires input.Valid() && !input.legitimateMessageEnd
      modifies this, input
      ensures input.Valid() && (ok ==> !input.legitimateMessageEnd && input.limit == old(input.limit))
      ensures TakesField(ResultCodec.ApplyResult, old(fields), tag, old(input.Rest()), ok, fields, input.Rest())
    {
      ghost var m, bytes := fields, input.Rest();
      ok := true;
      if tag == 10 {
        var v := input.ReadBytes();
        ResultIdTaken(m, bytes, v, input.Rest());
        if v.None? {
          return false;
        }
        fields := fields.(transactionIdentifier := v);
      } else if tag == 18 {
        var x := new OperationResult();
        ok := x.ReadMessage(input);
        ResultOperationTaken(m, bytes, ok, x.fields, input.Rest());
        fields := fields.(results := fields.results + [x.fields]);
      } else if tag == 24 {
        var read := input.ReadVarint64();
        ResultErrorCodeTaken(m, bytes, read, input.Rest());
        if read.None? {
          return false;
        }
        fields := fields.(errorCode := Some(AsInt32(read.value)));
      } else if tag == 34 {
        var v := input.ReadBytes();
        ResultErrorTextTaken(m, bytes, v, input.Rest());
        if v.None? {
          return false;
        }
        fields := fields.(errorDescription := v);
      } else {
        var field := input.SkipField(tag);
        ResultUnknownTaken(m, tag, bytes, field, input.Rest());
        if field.None? {
          return false;
        }
        fields := fields.(unknown := fields.unknown + [field.value]);
      }
    }

    /** One pass of the loop. `pending` is a tag already taken by ExpectTag: no tag is read then. */
    method Step(input: CodedInputStream, pending: nat) returns (pass: Pass)
      requires input.Valid() && !input.legitimateMessageEnd
      modifies this, input
      ensures input.Valid() && (pass != Return(false) ==> input.limit == old(input.limit))
      ensures Passes(ResultCodec.ApplyResult, ParseFrom(ResultCodec.ApplyResult, old(fields), pending,
                old(input.Rest())),
                     pass, fields, input.Rest(), input.legitimateMessageEnd)
      ensures pass.Again? ==> Left(input.Rest(), pass.pending) < Left(old(input.Rest()), pending)
    {
      var tag := NextTag(input, pending, ResultCodec.ApplyResult, fields);
      if tag == 0 || tag % 8 == 4 {
        return Return(true);
      }
      ghost var before, bytes := fields, input.Rest();
      var ok := TakeField(tag, input);
      FieldTaken(ResultCodec.ApplyResult, before, tag, bytes, ok, fields, input.Rest());
      if !ok {
        return Return(false);
      }
      var next, done := Follow(input, ResultCase(tag), ResultCodec.ApplyResult, fields);
      if done {
        return Return(true);
      }
      return Again(next);
    }

    method MergePartialFromCodedStream(input: CodedInputStream) returns (ok: bool)
      requires input.Valid() && !input.legitimateMessageEnd
      modifies this, input
      ensures input.Valid() && (ok ==> input.limit == old(input.limit))
      ensures Passes(ResultCodec.ApplyResult, ParseWith(ResultCodec.ApplyResult, old(fields), old(input.Rest())),
                     Return(ok), fields, input.Rest(), input.legitimateMessageEnd)
    {
      ghost var plain := ParseWith(ResultCodec.ApplyResult, fields, input.Rest());
      var pass := Again(0);
      while pass.Again?
        invariant input.Valid() && (pass != Return(false) ==> input.limit == old(input.limit))
        invariant Passes(ResultCodec.ApplyResult, plain, pass, fields, input.Rest(), input.legitimateMessageEnd)
        decreases pass.Again?, if pass.Again? then Left(input.Rest(), pass.pending) else 0
      {
        pass := Step(input, pass.pending);
      }
      return pass.ok;
    }

    /** ParseFromString, into a cleared Result: the plain parser's Result, if it is complete. */
    method ParseFromString(bytes: Bytes) returns (ok: bool)
      modifies this
      ensures match ResultCodec.ParseResult(bytes)
              case None => !ok
              case Some(r) => ok && fields == r
    {
      fields := ResultCodec.NO_RESULT;
      var input := new CodedInputStream(bytes);
      ok := MergePartialFromCodedStream(input);
      return ok && input.legitimateMessageEnd && fields.IsInitialized();
    }

    method ByteSize() returns (totalSize: nat)
      requires |fields.Bytes()| < TWO_31
      modifies `cache
      ensures ResultIsCached(fields, cache) && totalSize == cache.size
    {
      cache := SizeResult(fields);
      totalSize := cache.size;
    }

    method SerializeWithCachedSizes(output: CodedOutputStream)
      requires ResultIsCached(fields, cache)
      modifies output
      ensures output.bytes == old(output.bytes) + fields.Bytes()
    {
      WriteResult(fields, cache, output);
    }

    /** SerializeToString: sizes first, then the bytes, exactly as many as were announced. */
    method SerializeToString() returns (bytes: Bytes)
      requires |fields.Bytes()| < TWO_31
      modifies `cache
      ensures bytes == fields.Bytes() && |bytes| == cache.size
    {
      var output := new CodedOutputStream();
      var size := ByteSize();
      SerializeWithCachedSizes(output);
      bytes := output.bytes;
    }

    method MergeFrom(from: Result)
      requires from != this
      modifies `fields
      ensures fields == old(fields).Merge(from.fields)
    {
      fields := fields.(results := fields.results + from.fields.results);
      if from.fields.transactionIdentifier.Some? {
        fields := fields.(transactionIdentifier := from.fields.transactionIdentifier);
      }
      if from.fields.errorCode.Some? {
        fields := fields.(errorCode := from.fields.errorCode);
      }
      if from.fields.errorDescription.Some? {
        fields := fields.(errorDescription := from.fields.errorDescription);
      }
      fields := fields.(unknown := fields.unknown + from.fields.unknown);
    }
  }

  // ---------------------------------------------------------------- cached sizes, level by level

  ghost predicate RowIsCached(v: ResultCodec.Row, cache: CachedSizes) {
    && cache.size == |v.Bytes()| && |cache.nested| == |v.columns|
    && forall i :: 0 <= i < |v.columns| ==> cache.nested[i].size == |v.columns[i].Bytes()|
  }

  ghost predicate OperationIsCached(v: ResultCodec.OperationResult, cache: CachedSizes) {
    && cache.size == |v.Bytes()| && |cache.nested| == |v.rows|
    && forall i :: 0 <= i < |v.rows| ==> RowIsCached(v.rows[i], cache.nested[i])
  }

  /** Every cached size in the tree is the number of bytes its message writes. */
  ghost predicate ResultIsCached(v: ResultCodec.Result, cache: CachedSizes) {
    && cache.size == |v.Bytes()| && |cache.nested| == |v.results|
    && forall i :: 0 <= i < |v.results| ==> OperationIsCached(v.results[i], cache.nested[i])
  }

  lemma RowSize(v: ResultCodec.Row)
    requires |v.Bytes()| < TWO_31
    ensures |v.Bytes()| == |v.columns| + PrefixedSize(SizesOf(ColumnCodec.ColumnValueBytes, v.columns), |v.columns|)
                           + |EmitAll(v.unknown)|
    ensures forall k :: 0 <= k < |v.columns| ==> |v.columns[k].Bytes()| < TWO_31
  {
    TwoGroups([], v.Fields());
    AllGroups(v.Fields());
    NestedSize(1, ColumnCodec.ColumnValueBytes, v.columns);
  }

  lemma OperationSize(v: ResultCodec.OperationResult)
    requires |v.Bytes()| < TWO_31
    ensures |v.Bytes()| == Int32FieldSize(v.typ) + |v.rows|
                           + PrefixedSize(SizesOf(ResultCodec.RowBytes, v.rows), |v.rows|) + |EmitAll(v.unknown)|
    ensures forall k :: 0 <= k < |v.rows| ==> |v.rows[k].Bytes()| < TWO_31
  {
    ThreeGroups([], v.Fields());
    FieldSizesAreLengths(2, None, v.typ, None);
    NestedSize(1, ResultCodec.RowBytes, v.rows);
  }

  lemma ResultSize(v: ResultCodec.Result)
    requires |v.Bytes()| < TWO_31
    ensures |v.Bytes()| == BytesFieldSize(v.transactionIdentifier) + Int32FieldSize(v.errorCode)
                           + BytesFieldSize(v.errorDescription) + |v.results|
                           + PrefixedSize(SizesOf(ResultCodec.OperationResultBytes, v.results), |v.results|)
                           + |EmitAll(v.unknown)|
    ensures forall k :: 0 <= k < |v.results| ==> |v.results[k].Bytes()| < TWO_31
  {
    FiveGroups([], v.Fields());
    FieldSizesAreLengths(1, v.transactionIdentifier, None, None);
    FieldSizesAreLengths(3, None, v.errorCode, None);
    FieldSizesAreLengths(4, v.errorDescription, None, None);
    NestedSize(2, ResultCodec.OperationResultBytes, v.results);
  }

  method SizeColumns(cs: seq<ColumnCodec.ColumnValue>) returns (total: nat, nested: seq<CachedSizes>)
    requires forall k :: 0 <= k < |cs| ==> |cs[k].Bytes()| < TWO_31
    ensures total == PrefixedSize(SizesOf(ColumnCodec.ColumnValueBytes, cs), |cs|) && |nested| == |cs|
    ensures forall k :: 0 <= k < |cs| ==> nested[k].size == |cs[k].Bytes()|
  {
    hide ColumnCodec.ColumnValue.Bytes;
    ghost var sizes := SizesOf(ColumnCodec.ColumnValueBytes, cs);
    total, nested := 0, [];
    while |nested| < |cs|
      invariant |nested| <= |cs| && total == PrefixedSize(sizes, |nested|)
      invariant forall k :: 0 <= k < |nested| ==> nested[k].size == |cs[k].Bytes()|
    {
      var element := ColumnProto.SizeColumnValue(cs[|nested|]);
      assert element == |ColumnCodec.ColumnValueBytes(cs[|nested|])| == sizes[|nested|];
      total := total + VarintSize(element) + element;
      nested := nested + [CachedSizes(element, [])];
    }
  }

  method SizeRow(v: ResultCodec.Row) returns (cache: CachedSizes)
    requires |v.Bytes()| < TWO_31
    ensures RowIsCached(v, cache)
  {
    RowSize(v);
    var totalSize := 1 * |v.columns|;
    var total, nested := SizeColumns(v.columns);
    totalSize := totalSize + total + |EmitAll(v.unknown)|;
    cache := CachedSizes(totalSize, nested);
  }

  lemma CachedRowSize(v: ResultCodec.Row, cache: CachedSizes)
    requires RowIsCached(v, cache)
    ensures cache.size == |ResultCodec.RowBytes(v)|
  {
  }

  method SizeRows(cs: seq<ResultCodec.Row>) returns (total: nat, nested: seq<CachedSizes>)
    requires forall k :: 0 <= k < |cs| ==> |cs[k].Bytes()| < TWO_31
    ensures total == PrefixedSize(SizesOf(ResultCodec.RowBytes, cs), |cs|) && |nested| == |cs|
    ensures forall k :: 0 <= k < |cs| ==> RowIsCached(cs[k], nested[k])
  {
    hide ResultCodec.Row.Bytes;
    hide VarintSize;
    hide RowIsCached;
    ghost var sizes := SizesOf(ResultCodec.RowBytes, cs);
    total, nested := 0, [];
    while |nested| < |cs|
      invariant |nested| <= |cs| && total == PrefixedSize(sizes, |nested|)
      invariant forall k :: 0 <= k < |nested| ==> RowIsCached(cs[k], nested[k])
    {
      var element := SizeRow(cs[|nested|]);
      CachedRowSize(cs[|nested|], element);
      total := total + VarintSize(element.size) + element.size;
      nested := nested + [element];
    }
  }

  method SizeOperation(v: ResultCodec.OperationResult) returns (cache: CachedSizes)
    requires |v.Bytes()| < TWO_31
    ensures OperationIsCached(v, cache)
  {
    OperationSize(v);
    var totalSize := Int32FieldSize(v.typ) + 1 * |v.rows|;
    var total, nested := SizeRows(v.rows);
    totalSize := totalSize + total + |EmitAll(v.unknown)|;
    cache := CachedSizes(totalSize, nested);
  }

  method SizeResults(cs: seq<ResultCodec.OperationResult>) returns (total: nat, nested: seq<CachedSizes>)
    requires forall k :: 0 <= k < |cs| ==> |cs[k].Bytes()| < TWO_31
    ensures total == PrefixedSize(SizesOf(ResultCodec.OperationResultBytes, cs), |cs|) && |nested| == |cs|
    ensures forall k :: 0 <= k < |cs| ==> OperationIsCached(cs[k], nested[k])
  {
    hide ResultCodec.OperationResult.Bytes;
    ghost var sizes := SizesOf(ResultCodec.OperationResultBytes, cs);
    total, nested := 0, [];
    while |nested| < |cs|
      invariant |nested| <= |cs| && total == PrefixedSize(sizes, |nested|)
      invariant forall k :: 0 <= k < |nested| ==> OperationIsCached(cs[k], nested[k])
    {
      var element := SizeOperation(cs[|nested|]);
      assert element.size == |ResultCodec.OperationResultBytes(cs[|nested|])| == sizes[|nested|];
      total := total + VarintSize(element.size) + element.size;
      nested := nested + [element];
    }
  }

  method SizeResult(v: ResultCodec.Result) returns (cache: CachedSizes)
    requires |v.Bytes()| < TWO_31
    ensures ResultIsCached(v, cache)
  {
    ResultSize(v);
    var totalSize := BytesFieldSize(v.transactionIdentifier) + Int32FieldSize(v.errorCode)
        + BytesFieldSize(v.errorDescription)
                     + 1 * |v.results|;
    var total, nested := SizeResults(v.results);
    totalSize := totalSize + total + |EmitAll(v.unknown)|;
    cache := CachedSizes(totalSize, nested);
  }

  method WriteColumns(cs: seq<ColumnCodec.ColumnValue>, nested: seq<CachedSizes>, output: CodedOutputStream)
    requires |nested| == |cs| && forall k :: 0 <= k < |cs| ==> nested[k].size == |cs[k].Bytes()|
    modifies output
    ensures output.bytes == old(output.bytes) + EmitAll(NestedFields(1, ColumnCodec.ColumnValueBytes, cs))
  {
    ghost var start := output.bytes;
    EmptyStart(start);
    var i := 0;
    while i < |cs|
      invariant i <= |cs| && output.bytes == start + Prefixed(1, ColumnCodec.ColumnValueBytes, cs, i)
    {
      output.WriteMessageHeader(1, nested[i].size);
      ColumnProto.WriteColumnValue(cs[i], output);
      PrefixedStep(start, 1, ColumnCodec.ColumnValueBytes, cs, i);
      i := i + 1;
    }
    AllPrefixed(1, ColumnCodec.ColumnValueBytes, cs);
  }

  method WriteRow(v: ResultCodec.Row, cache: CachedSizes, output: CodedOutputStream)
    requires RowIsCached(v, cache)
    modifies output
    ensures output.bytes == old(output.bytes) + v.Bytes()
  {
    WriteColumns(v.columns, cache.nested, output);
    output.WriteUnknown(v.unknown);
    TwoGroups(old(output.bytes), v.Fields());
    AllGroups(v.Fields());
  }

  method WriteRows(cs: seq<ResultCodec.Row>, nested: seq<CachedSizes>, output: CodedOutputStream)
    requires |nested| == |cs| && forall k :: 0 <= k < |cs| ==> RowIsCached(cs[k], nested[k])
    modifies output
    ensures output.bytes == old(output.bytes) + EmitAll(NestedFields(1, ResultCodec.RowBytes, cs))
  {
    ghost var start := output.bytes;
    EmptyStart(start);
    var i := 0;
    while i < |cs|
      invariant i <= |cs| && output.bytes == start + Prefixed(1, ResultCodec.RowBytes, cs, i)
    {
      output.WriteMessageHeader(1, nested[i].size);
      WriteRow(cs[i], nested[i], output);
      PrefixedStep(start, 1, ResultCodec.RowBytes, cs, i);
      i := i + 1;
    }
    AllPrefixed(1, ResultCodec.RowBytes, cs);
  }

  method WriteOperation(v: ResultCodec.OperationResult, cache: CachedSizes, output: CodedOutputStream)
    requires OperationIsCached(v, cache)
    modifies output
    ensures output.bytes == old(output.bytes) + v.Bytes()
  {
    WriteRows(v.rows, cache.nested, output);
    output.WriteInt32Field(2, v.typ);
    output.WriteUnknown(v.unknown);
    ThreeGroups(old(output.bytes), v.Fields());
  }

  method WriteResults(cs: seq<ResultCodec.OperationResult>, nested: seq<CachedSizes>, output: CodedOutputStream)
    requires |nested| == |cs| && forall k :: 0 <= k < |cs| ==> OperationIsCached(cs[k], nested[k])
    modifies output
    ensures output.bytes == old(output.bytes) + EmitAll(NestedFields(2, ResultCodec.OperationResultBytes, cs))
  {
    ghost var start := output.bytes;
    EmptyStart(start);
    var i := 0;
    while i < |cs|
      invariant i <= |cs| && output.bytes == start + Prefixed(2, ResultCodec.OperationResultBytes, cs, i)
    {
      output.WriteMessageHeader(2, nested[i].size);
      WriteOperation(cs[i], nested[i], output);
      PrefixedStep(start, 2, ResultCodec.OperationResultBytes, cs, i);
      i := i + 1;
    }
    AllPrefixed(2, ResultCodec.OperationResultBytes, cs);
  }

  method WriteResult(v: ResultCodec.Result, cache: CachedSizes, output: CodedOutputStream)
    requires ResultIsCached(v, cache)
    modifies output
    ensures output.bytes == old(output.bytes) + v.Bytes()
  {
    output.WriteBytesField(1, v.transactionIdentifier);
    WriteResults(v.results, cache.nested, output);
    output.WriteInt32Field(3, v.errorCode);
    output.WriteBytesField(4, v.errorDescription);
    output.WriteUnknown(v.unknown);
    FiveGroups(old(output.bytes), v.Fields());
  }
}
