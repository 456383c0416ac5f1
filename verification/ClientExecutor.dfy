/** The client: sending operations and collecting server responses (volodb-client Executor.cpp). */
module ClientExecution {
  import opened Wrappers
  import opened Wire
  import opened FrameCodec
  import opened ResultCodec
  import opened Messages
  import opened FrameBuilding
  import opened FrameDecoding

  /** The item identifiers handed to addFrame: none for an atomic frame, else the operations' own. */
  function ItemIds(operations: seq<Message>, uuids: seq<Bytes>, runAtomic: bool): (ids: seq<Bytes>)
    requires runAtomic || |uuids| == |operations|
    ensures |ids| == |operations|
  {
    if runAtomic then seq(|operations|, i => []) else uuids
  }

  lemma BuiltFrameGrows(frameId: Option<Bytes>, ms: seq<Message>, ids: seq<Bytes>, i: nat)
    requires |ids| == |ms| && i < |ms|
    ensures var before := BuiltFrame(frameId, ms[..i], ids[..i]);
            BuiltFrame(frameId, ms[..i + 1], ids[..i + 1])
            == before.(items := before.items + [ItemFor(ms[i], if frameId.Some? then None else Some(ids[i]))])
  {
    hide ItemFor;
    var (before, after) := (BuiltFrame(frameId, ms[..i], ids[..i]), BuiltFrame(frameId, ms[..i + 1], ids[..i + 1]));
    assert after.items[..i] == before.items && after.items == after.items[..i] + [after.items[i]];
  }

  /**
   execute(operations, uuids, runAtomic): the bytes handed to the transport, or None when an
   exception is thrown. `crashed`: a call that is not atomic, without operations and identifiers,
   reads the first of no identifiers.
   */
  method Execute(operations: seq<Message>, uuids: seq<Bytes>, runAtomic: bool)
    returns (sent: Option<Bytes>, crashed: bool)
    ensures crashed <==> !runAtomic && operations == [] && uuids == []
    ensures sent.None? <==>
              || crashed
              || (if runAtomic then uuids == [] else |operations| != |uuids|)
              || exists i :: 0 <= i < |operations| && operations[i].Unsupported?
    ensures sent.Some? ==>
              sent.value == BuiltFrame(if runAtomic then Some(uuids[0]) else None, operations,
                                       ItemIds(operations, uuids, runAtomic)).Bytes()
  {
    if !runAtomic && |operations| != |uuids| {
      return None, false;
    } else if runAtomic && |uuids| < 1 {
      return None, false;
    }
    if uuids == [] {
      return None, true;
    }
    var frameBuilder := new FrameBuilder(runAtomic, uuids[0]);
    ghost var frameId := if runAtomic then Some(uuids[0]) else None;
    ghost var ids := ItemIds(operations, uuids, runAtomic);
    assert frameBuilder.frame == BuiltFrame(frameId, operations[..0], ids[..0]);
    hide BuiltFrame;
    hide ItemFor;
    hide Frame.Bytes;
    var i := 0;
    while i < |operations|
      invariant i <= |operations|
      invariant forall k :: 0 <= k < i ==> !operations[k].Unsupported?
      invariant frameBuilder.frame == BuiltFrame(frameId, operations[..i], ids[..i])
    {
      var frameIdentifier := frameBuilder.AddFrame(operations[i], if runAtomic then [] else uuids[i]);
      if frameIdentifier.None? {
        return None, false;
      }
      BuiltFrameGrows(frameId, operations, ids, i);
      i := i + 1;
    }
    assert operations[..i] == operations && ids[..i] == ids;
    var bytes := frameBuilder.GetBytes();
    return Some(bytes), false;
  }

  /** execute(operation, uuid): a frame with one item under its own identifier. */
  method ExecuteOne(operation: Message, uuid: Bytes) returns (sent: Option<Bytes>)
    ensures sent == if operation.Unsupported? then None else Some(BuiltFrame(None, [operation], [uuid]).Bytes())
  {
    var frameBuilder := new FrameBuilder(false, []);
    var added := frameBuilder.AddFrame(operation, uuid);
    if added.None? {
      return None;
    }
    assert frameBuilder.frame == BuiltFrame(None, [operation], [uuid]);
    var bytes := frameBuilder.GetBytes();
    sent := Some(bytes);
  }

  // ---------------------------------------------------------------- responses

  /** The first message of every tuple that has one. */
  function FirstMessages(tuples: seq<TupleValue>): seq<Message> {
    if tuples == [] then []
    else
      var last := |tuples| - 1;
      FirstMessages(tuples[..last])
      + if tuples[last].messages == [] then [] else [tuples[last].messages[0]]
  }

  function Responses(ms: seq<Message>): seq<Result> {
    if ms == [] then []
    else
      var last := |ms| - 1;
      Responses(ms[..last]) + if ms[last].ServerResponse? then [ms[last].result] else []
  }

  /** flattenFrameMessagesTupleListToSingleList. */
  method FlattenToSingleList(list: seq<FrameMessagesTuple>, ghost values: seq<TupleValue>)
    returns (messages: seq<Message>)
    requires Represents(list, values)
    ensures messages == FirstMessages(values)
  {
    messages := [];
    var i := 0;
    while i < |list|
      invariant i <= |list|
      invariant messages == FirstMessages(values[..i])
    {
      assert values[..i + 1][..i] == values[..i];
      assert list[i].messages == values[i].messages;
      if |list[i].messages| > 0 {
        messages := messages + [list[i].messages[0]];
      }
      i := i + 1;
    }
    assert values[..i] == values;
  }

  /** flattenFrameMessagesTupleList: the messages tuple by tuple. */
  method FlattenToLists(list: seq<FrameMessagesTuple>, ghost values: seq<TupleValue>)
    returns (messages: seq<seq<Message>>)
    requires Represents(list, values)
    ensures |messages| == |values| && forall i :: 0 <= i < |values| ==> messages[i] == values[i].messages
  {
    messages := [];
    while |messages| < |list|
      invariant |messages| <= |list|
      invariant forall i :: 0 <= i < |messages| ==> messages[i] == values[i].messages
    {
      assert list[|messages|].Value() == values[|messages|];
      messages := messages + [list[|messages|].messages];
    }
  }

  /** The messages that are server responses, as Results. */
  method SelectResponses(messages: seq<Message>) returns (results: seq<Result>)
    ensures results == Responses(messages)
  {
    results := [];
    var i := 0;
    while i < |messages|
      invariant i <= |messages|
      invariant results == Responses(messages[..i])
    {
      assert messages[..i + 1][..i] == messages[..i];
      if messages[i].FrameType() == SERVER_RESPONSE {
        results := results + [messages[i].result];
      }
      i := i + 1;
    }
    assert messages[..i] == messages;
  }

  /** The results of the tuples at `indexes`, which are those whose first message is a server response, in order. */
  ghost predicate AreDelivered(tuples: seq<TupleValue>, results: seq<Result>, indexes: seq<nat>) {
    && |indexes| == |results|
    && (forall k :: 0 <= k < |indexes| ==>
          && indexes[k] < |tuples| && tuples[indexes[k]].messages != []
          && tuples[indexes[k]].messages[0] == ServerResponse(results[k]))
    && (forall j, k :: 0 <= j < k < |indexes| ==> indexes[j] < indexes[k])
    && forall i :: 0 <= i < |tuples| && tuples[i].messages != [] && tuples[i].messages[0].ServerResponse? ==>
         i in indexes
  }

  lemma DeliverOneMore(tuples: seq<TupleValue>, results: seq<Result>, indexes: seq<nat>, t: TupleValue)
    requires AreDelivered(tuples, results, indexes)
    ensures if t.messages != [] && t.messages[0].ServerResponse? then
              AreDelivered(tuples + [t], results + [t.messages[0].result], indexes + [|tuples|])
            else AreDelivered(tuples + [t], results, indexes)
  {
    var longer := indexes + [|tuples|];
    assert forall i :: i in longer <==> i in indexes || i == |tuples|;
  }

  /**
   What is delivered: the result of every tuple whose first message is a server response, in order. Other
   messages of a tuple, and tuples without any, are passed over.
   */
  lemma {:induction false} DeliveredByTuple(tuples: seq<TupleValue>) returns (indexes: seq<nat>)
    ensures AreDelivered(tuples, Responses(FirstMessages(tuples)), indexes)
  {
    hide AreDelivered;
    hide Responses;
    hide FirstMessages;
    if tuples == [] {
      indexes := [];
      NothingDelivered();
    } else {
      var (before, t) := (tuples[..|tuples| - 1], tuples[|tuples| - 1]);
      var sooner := DeliveredByTuple(before);
      DeliverOneMore(before, Responses(FirstMessages(before)), sooner, t);
      OneMoreDelivered(before, t);
      assert before + [t] == tuples;
      var delivers := t.messages != [] && t.messages[0].ServerResponse?;
      indexes := if delivers then sooner + [|before|] else sooner;
      assert !delivers ==> Responses(FirstMessages(before)) + [] == Responses(FirstMessages(before));
    }
  }

  lemma NothingDelivered()
    ensures AreDelivered([], Responses(FirstMessages([])), [])
  {
  }

  lemma OneMoreDelivered(tuples: seq<TupleValue>, t: TupleValue)
    ensures Responses(FirstMessages(tuples + [t]))
            == Responses(FirstMessages(tuples))
               + if t.messages != [] && t.messages[0].ServerResponse? then [t.messages[0].result] else []
  {
    FirstMessagesSnoc(tuples, t);
    var before := FirstMessages(tuples);
    hide FirstMessages;
    if t.messages != [] {
      assert (before + [t.messages[0]])[..|before|] == before;
    }
    assert before + [] == before && Responses(before) + [] == Responses(before);
  }

  /** didReceiveMessage: the results handed to the delegate, which is called when there are any. */
  method DidReceiveMessage(messages: seq<Bytes>) returns (results: seq<Result>)
    ensures results == Responses(FirstMessages(DecodeFrames(PROTOBUF, messages)))
  {
    var responses := DecodeWithoutIdentities(PROTOBUF, messages);
    var flattened := FlattenToSingleList(responses, DecodeFrames(PROTOBUF, messages));
    results := SelectResponses(flattened);
  }

  function ReplyBytes(r: Result): Bytes { SingleFrame(ServerResponse(r)).Bytes() }

  ghost predicate CanBeSent(r: Result) {
    r.WellFormed() && r.IsInitialized() && |ReplyBytes(r)| < TWO_31
  }

  /** One reply frame decodes to one tuple with exactly that Result. */
  lemma ReplyDecodes(r: Result)
    requires CanBeSent(r)
    ensures DecodeFrame(PROTOBUF, ReplyBytes(r), []) == [TupleValue([], [], [ServerResponse(r)])]
  {
    var frame := BuiltFrame(None, [ServerResponse(r)], [[]]);
    assert frame == SingleFrame(ServerResponse(r));
    SeparateBuildThenDecode([ServerResponse(r)], [[]], []);
  }

  lemma FirstMessagesSnoc(tuples: seq<TupleValue>, t: TupleValue)
    ensures FirstMessages(tuples + [t]) == FirstMessages(tuples) + if t.messages == [] then [] else [t.messages[0]]
  {
    assert (tuples + [t])[..|tuples|] == tuples;
  }

  lemma ResponsesSnoc(ms: seq<Message>, r: Result)
    ensures Responses(ms + [ServerResponse(r)]) == Responses(ms) + [r]
  {
    assert (ms + [ServerResponse(r)])[..|ms|] == ms;
  }

  lemma OneMoreFrame(p: Parsers, frames: seq<Bytes>, t: TupleValue)
    requires frames != [] && DecodeFrame(p, frames[|frames| - 1], []) == [t]
    ensures DecodeFrames(p, frames) == DecodeFrames(p, frames[..|frames| - 1]) + [t]
  {
    hide DecodeFrame;
  }

  lemma {:induction false} ResponsesOfFrames(p: Parsers, frames: seq<Bytes>, rs: seq<Result>)
    requires |frames| == |rs|
    requires forall i :: 0 <= i < |rs| ==>
               DecodeFrame(p, frames[i], []) == [TupleValue([], [], [ServerResponse(rs[i])])]
    ensures Responses(FirstMessages(DecodeFrames(p, frames))) == rs
  {
    hide DecodeFrame;
    if rs != [] {
      hide FirstMessages;
      hide Responses;
      hide DecodeFrames;
      var last := |rs| - 1;
      ResponsesOfFrames(p, frames[..last], rs[..last]);
      var before := DecodeFrames(p, frames[..last]);
      var t := TupleValue([], [], [ServerResponse(rs[last])]);
      OneMoreFrame(p, frames, t);
      FirstMessagesSnoc(before, t);
      ResponsesSnoc(FirstMessages(before), rs[last]);
      assert rs[..last] + [rs[last]] == rs;
    }
  }

  /** Any batch of reply frames reaches the delegate as exactly those Results, in arrival order. */
  lemma RepliesReachTheClient(rs: seq<Result>)
    requires forall r :: r in rs ==> CanBeSent(r)
    ensures Responses(FirstMessages(DecodeFrames(PROTOBUF, ReplyFrames(rs)))) == rs
  {
    forall i | 0 <= i < |rs|
      ensures DecodeFrame(PROTOBUF, ReplyFrames(rs)[i], []) == [TupleValue([], [], [ServerResponse(rs[i])])]
    {
      assert rs[i] in rs;
      ReplyDecodes(rs[i]);
    }
    ResponsesOfFrames(PROTOBUF, ReplyFrames(rs), rs);
  }

  function ReplyFrames(rs: seq<Result>): (frames: seq<Bytes>)
    ensures |frames| == |rs|
  {
    seq(|rs|, i requires 0 <= i < |rs| => ReplyBytes(rs[i]))
  }
}
