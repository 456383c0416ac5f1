/** Decoding frames into transaction tuples (FrameDecoder.cpp). */
module FrameDecoding {
  import opened Wrappers
  import opened Wire
  import opened FrameCodec
  import opened Messages
  import opened Transport
  import opened FrameBuilding
  import NdbTables

  /** The value of a FrameMessagesTuple: transaction ID, client identity, messages in order. */
  datatype TupleValue = TupleValue(id: Bytes, identity: Bytes, messages: seq<Message>)

  /** FrameMessagesTuple. `released` says that the list owning the tuple has been freed. */
  class FrameMessagesTuple {
    var id: Bytes
    const identity: ZmqMessage
    var messages: seq<Message>
    var released: bool

    constructor (identifier: ZmqMessage?)
      ensures fresh(identity)
      ensures id == [] && messages == [] && !released
      ensures identity.data == IdentityOf(identifier)
    {
      id := [];
      identity := new ZmqMessage(if identifier == null then [] else identifier.data);
      messages := [];
      released := false;
    }

    function Value(): TupleValue
      reads this, identity
    {
      TupleValue(id, identity.data, messages)
    }
  }

  function IdentityOf(identifier: ZmqMessage?): Bytes
    reads identifier
  {
    if identifier == null then [] else identifier.data
  }

  /** The parsers the decoder calls: ParseFromArray on the frame, and one per item type. */
  datatype Parsers = Parsers(frame: Bytes -> Option<Frame>, item: FrameItem -> seq<Message>)

  /** The message of one item, or nothing when it does not decode. */
  function DecodeItem(item: FrameItem): seq<Message> {
    match DecodePayload(item.typ.GetOr(NONE), item.data.GetOr([]))
    case Some(m) => [m]
    case None => []
  }

  const PROTOBUF := Parsers(ParseFrame, DecodeItem)

  /** The messages of the items that decode, in item order. */
  function DecodedMessages(p: Parsers, items: seq<FrameItem>): seq<Message> {
    if items == [] then []
    else
      var last := |items| - 1;
      DecodedMessages(p, items[..last]) + p.item(items[last])
  }

  /** A tuple after the body of the item loop: the item is added to it, or ignored. */
  function WithItem(p: Parsers, t: TupleValue, item: FrameItem, isAtomic: bool): TupleValue {
    var messages := p.item(item);
    TupleValue(if isAtomic || messages == [] then t.id else item.identifier.GetOr([]),
               t.identity, t.messages + messages)
  }

  /** The tuple a non-atomic item becomes; one that does not decode leaves an empty tuple. */
  function ItemTuple(p: Parsers, item: FrameItem, identity: Bytes): TupleValue {
    WithItem(p, TupleValue([], identity, []), item, false)
  }

  function ItemTuples(p: Parsers, items: seq<FrameItem>, identity: Bytes): seq<TupleValue> {
    seq(|items|, i requires 0 <= i < |items| => ItemTuple(p, items[i], identity))
  }

  function FrameTuples(p: Parsers, frame: Frame, identity: Bytes): seq<TupleValue> {
    if frame.identifier.Some? then
      [TupleValue(frame.identifier.value, identity, DecodedMessages(p, frame.items))]
    else ItemTuples(p, frame.items, identity)
  }

  /** The tuples of one received frame; bytes that are no frame give none. */
  function DecodeFrame(p: Parsers, bytes: Bytes, identity: Bytes): seq<TupleValue> {
    match p.frame(bytes)
    case None => []
    case Some(frame) => FrameTuples(p, frame, identity)
  }

  /** A list of separate, live tuple objects with the given values. */
  ghost predicate Represents(list: seq<FrameMessagesTuple>, values: seq<TupleValue>)
    reads list, set t | t in list :: t.identity
  {
    && |list| == |values|
    && (forall k :: 0 <= k < |list| ==> list[k].Value() == values[k] && !list[k].released)
    && (forall i, j :: 0 <= i < j < |list| ==> list[i] != list[j])
  }

  /** messagesPointer->push_back(new tuple). */
  method PushTuple(list: seq<FrameMessagesTuple>, identifier: ZmqMessage?, ghost values: seq<TupleValue>)
    returns (longer: seq<FrameMessagesTuple>)
    requires Represents(list, values)
    ensures |longer| == |list| + 1 && longer[..|list|] == list
    ensures fresh(longer[|list|]) && fresh(longer[|list|].identity)
    ensures Represents(longer, values + [TupleValue([], IdentityOf(identifier), [])])
  {
    var t := new FrameMessagesTuple(identifier);
    longer := list + [t];
  }

  /** The body of the item loop: decodes the item into the current tuple, the last of the list. */
  method AddItem(p: Parsers, list: seq<FrameMessagesTuple>, item: FrameItem, isAtomic: bool,
                 ghost values: seq<TupleValue>)
    requires list != [] && Represents(list, values)
    modifies list[|list| - 1]
    ensures Represents(list, values[|list| - 1 := WithItem(p, values[|list| - 1], item, isAtomic)])
  {
    var messages := list[|list| - 1];
    var currentMessage := p.item(item);
    if currentMessage == [] {
      assert messages.messages + [] == messages.messages;
      return;
    }
    messages.messages := messages.messages + currentMessage;
    if !isAtomic {
      messages.id := item.identifier.GetOr([]);
    }
  }

  method Decode(p: Parsers, message: Bytes, identifier: ZmqMessage?) returns (list: seq<FrameMessagesTuple>)
    ensures forall t :: t in list ==> fresh(t) && fresh(t.identity)
    ensures p.frame(message).None? ==> list == []
    ensures p.frame(message).Some? ==>
              |list| == if p.frame(message).value.identifier.Some? then 1 else |p.frame(message).value.items|
    ensures Represents(list, DecodeFrame(p, message, IdentityOf(identifier)))
  {
    list := [];
    var parsed := p.frame(message);
    if parsed.None? {
      return;
    }
    list := DecodeItems(p, parsed.value, identifier);
  }

  /** The tuples the item loop has built when it reaches item i. */
  ghost function TuplesAfter(p: Parsers, frame: Frame, identity: Bytes, i: nat): seq<TupleValue>
    requires i <= |frame.items|
  {
    if frame.identifier.Some? then [TupleValue([], identity, DecodedMessages(p, frame.items[..i]))]
    else ItemTuples(p, frame.items[..i], identity)
  }

  /** The same tuples with the one for item i pushed, when the frame is not atomic. */
  ghost function CurrentTuples(p: Parsers, frame: Frame, identity: Bytes, i: nat): (values: seq<TupleValue>)
    requires i <= |frame.items|
    ensures values != []
  {
    TuplesAfter(p, frame, identity, i) + if frame.identifier.Some? then [] else [TupleValue([], identity, [])]
  }

  lemma ItemStep(p: Parsers, frame: Frame, identity: Bytes, i: nat)
    requires i < |frame.items|
    ensures var values := CurrentTuples(p, frame, identity, i);
            var last := |values| - 1;
            TuplesAfter(p, frame, identity, i + 1)
            == values[last := WithItem(p, values[last], frame.items[i], frame.identifier.Some?)]
  {
    assert frame.items[..i + 1][..i] == frame.items[..i];
  }

  /** One pass of the item loop. */
  method TakeItem(p: Parsers, list: seq<FrameMessagesTuple>, frame: Frame, i: nat, identifier: ZmqMessage?)
    returns (longer: seq<FrameMessagesTuple>)
    requires i < |frame.items| && Represents(list, TuplesAfter(p, frame, IdentityOf(identifier), i))
    modifies list
    ensures Represents(longer, TuplesAfter(p, frame, old(IdentityOf(identifier)), i + 1))
    ensures forall t :: t in longer ==> t in list || (fresh(t) && fresh(t.identity))
  {
    ghost var identity := IdentityOf(identifier);
    var isAtomic := frame.identifier.Some?;
    longer := list;
    if !isAtomic {
      longer := PushTuple(list, identifier, TuplesAfter(p, frame, identity, i));
    }
    AddItem(p, longer, frame.items[i], isAtomic, CurrentTuples(p, frame, identity, i));
    ItemStep(p, frame, identity, i);
  }

  /** get<0>(*messages) = frame.identifier(), for the one tuple of an atomic frame. */
  method SetFrameId(p: Parsers, list: seq<FrameMessagesTuple>, frame: Frame, ghost identity: Bytes)
    requires Represents(list, TuplesAfter(p, frame, identity, |frame.items|))
    modifies list
    ensures Represents(list, FrameTuples(p, frame, identity))
  {
    assert frame.items[..|frame.items|] == frame.items;
    if frame.identifier.Some? {
      list[0].id := frame.identifier.value;
    }
  }

  lemma TuplesAtFirst(p: Parsers, frame: Frame, identity: Bytes)
    ensures TuplesAfter(p, frame, identity, 0)
            == if frame.identifier.Some? then [TupleValue([], identity, [])] else []
  {
  }

  method DecodeItems(p: Parsers, frame: Frame, identifier: ZmqMessage?) returns (list: seq<FrameMessagesTuple>)
    ensures forall t :: t in list ==> fresh(t) && fresh(t.identity)
    ensures Represents(list, FrameTuples(p, frame, IdentityOf(identifier)))
  {
    list := [];
    if frame.identifier.Some? {
      list := PushTuple(list, identifier, []);
    }
    TuplesAtFirst(p, frame, IdentityOf(identifier));
    assert Represents(list, TuplesAfter(p, frame, IdentityOf(identifier), 0));
    hide TuplesAfter;
    hide Represents;
    hide FrameTuples;
    var i := 0;
    while i < |frame.items|
      invariant i <= |frame.items|
      invariant forall t :: t in list ==> fresh(t) && fresh(t.identity)
      invariant Represents(list, TuplesAfter(p, frame, IdentityOf(identifier), i))
    {
      list := TakeItem(p, list, frame, i, identifier);
      i := i + 1;
    }
    SetFrameId(p, list, frame, IdentityOf(identifier));
  }

  // ---------------------------------------------------------------- lists of received parts

  /** Frames that arrive each behind the identity of the client that sent it. */
  function DecodeEnvelopes(p: Parsers, es: seq<Envelope>): seq<TupleValue> {
    if es == [] then []
    else
      var last := |es| - 1;
      DecodeEnvelopes(p, es[..last]) + DecodeFrame(p, es[last].frame, es[last].identity)
  }

  /** Frames that arrive alone, as on the client side. */
  function DecodeFrames(p: Parsers, frames: seq<Bytes>): seq<TupleValue> {
    if frames == [] then []
    else
      var last := |frames| - 1;
      DecodeFrames(p, frames[..last]) + DecodeFrame(p, frames[last], [])
  }

  lemma RepresentsConcat(a: seq<FrameMessagesTuple>, va: seq<TupleValue>, b: seq<FrameMessagesTuple>,
                         vb: seq<TupleValue>)
    requires Represents(a, va) && Represents(b, vb)
    requires forall i, j :: 0 <= i < |a| && 0 <= j < |b| ==> a[i] != b[j]
    ensures Represents(a + b, va + vb)
  {
  }

  /** The two-part messages in a list of parts; the last of an odd number of parts is in none. */
  function EnvelopesOf(parts: seq<Bytes>): seq<Envelope> {
    seq(|parts| / 2, k requires 0 <= k < |parts| / 2 => Envelope(parts[2 * k], parts[2 * k + 1]))
  }

  lemma EnvelopesGrow(p: Parsers, es: seq<Envelope>, k: nat)
    requires k < |es|
    ensures DecodeEnvelopes(p, es[..k + 1]) == DecodeEnvelopes(p, es[..k]) + DecodeFrame(p, es[k].frame, es[k].identity)
  {
    var longer := es[..k + 1];
    assert |longer| - 1 == k && longer[..k] == es[..k] && longer[k] == es[k];
  }

  /** decodedMessages->insert(end, ...) of one more decoded frame. */
  method AppendDecoded(p: Parsers, list: seq<FrameMessagesTuple>, frame: Bytes, identity: Bytes,
                       ghost values: seq<TupleValue>)
    returns (longer: seq<FrameMessagesTuple>)
    requires Represents(list, values)
    ensures Represents(longer, values + DecodeFrame(p, frame, identity))
    ensures forall t :: t in longer ==> t in list || (fresh(t) && fresh(t.identity))
  {
    var identifier := new ZmqMessage(identity);
    var decoded := Decode(p, frame, identifier);
    RepresentsConcat(list, values, decoded, DecodeFrame(p, frame, identity));
    longer := list + decoded;
  }

  /**
   decode(messages, true): the parts are taken two by two. `crashed`: the part after the last of an
   odd number of parts is read, which is not there.
   */
  method DecodeWithIdentities(p: Parsers, parts: seq<Bytes>)
    returns (list: seq<FrameMessagesTuple>, crashed: bool)
    ensures forall t :: t in list ==> fresh(t) && fresh(t.identity)
    ensures crashed <==> |parts| % 2 == 1
    ensures !crashed ==> Represents(list, DecodeEnvelopes(p, EnvelopesOf(parts)))
  {
    hide DecodeFrame;
    list := [];
    ghost var es, k := EnvelopesOf(parts), 0;
    assert es[..0] == [];
    var i := 0;
    while i < |parts|
      invariant i == 2 * k && k <= |es|
      invariant forall t :: t in list ==> fresh(t) && fresh(t.identity)
      invariant Represents(list, DecodeEnvelopes(p, es[..k]))
    {
      if i + 1 == |parts| {
        return list, true;
      }
      EnvelopesGrow(p, es, k);
      list := AppendDecoded(p, list, parts[i + 1], parts[i], DecodeEnvelopes(p, es[..k]));
      i, k := i + 2, k + 1;
    }
    assert es[..k] == es;
    crashed := false;
  }

  /** decode(messages, false). */
  method DecodeWithoutIdentities(p: Parsers, parts: seq<Bytes>) returns (list: seq<FrameMessagesTuple>)
    ensures forall t :: t in list ==> fresh(t) && fresh(t.identity)
    ensures Represents(list, DecodeFrames(p, parts))
  {
    hide DecodeFrame;
    list := [];
    var i := 0;
    while i < |parts|
      invariant i <= |parts|
      invariant forall t :: t in list ==> fresh(t) && fresh(t.identity)
      invariant Represents(list, DecodeFrames(p, parts[..i]))
    {
      var decoded := Decode(p, parts[i], null);
      assert parts[..i + 1][..i] == parts[..i];
      RepresentsConcat(list, DecodeFrames(p, parts[..i]), decoded, DecodeFrame(p, parts[i], []));
      list := list + decoded;
      i := i + 1;
    }
    assert parts[..i] == parts;
  }

  // ---------------------------------------------------------------- building, then decoding

  /** The frame the builder holds after adding `ms`, and the identifiers it was given. */
  function BuiltFrame(frameId: Option<Bytes>, ms: seq<Message>, uuids: seq<Bytes>): Frame
    requires |uuids| == |ms|
  {
    FrameCodec.Frame(frameId,
      seq(|ms|, i requires 0 <= i < |ms| => ItemFor(ms[i], if frameId.Some? then None else Some(uuids[i]))), [])
  }

  function Decodable(ms: seq<Message>): seq<Message> {
    if ms == [] then []
    else
      var last := |ms| - 1;
      Decodable(ms[..last]) + if ms[last].IsDecodable() then [ms[last]] else []
  }

  ghost predicate CanBeFramed(ms: seq<Message>) {
    forall m :: m in ms ==> m.WellFormed() && !m.Unsupported?
  }

  lemma BuiltFrameParses(frame: Frame, frameId: Option<Bytes>, ms: seq<Message>, uuids: seq<Bytes>)
    requires |uuids| == |ms| && frame == BuiltFrame(frameId, ms, uuids)
    requires CanBeFramed(ms) && |frame.Bytes()| < TWO_31
    ensures ParseFrame(frame.Bytes()) == Some(frame)
  {
    assert frame.WellFormed() && frame.IsInitialized() by {
      forall i | i in frame.items
        ensures i.WellFormed() && i.IsInitialized()
      {
        var k :| 0 <= k < |ms| && frame.items[k] == i;
        assert ms[k] in ms;
      }
    }
    FrameRoundTrip(frame);
  }

  lemma BuiltPayloadsAreSmall(frame: Frame, frameId: Option<Bytes>, ms: seq<Message>, uuids: seq<Bytes>)
    requires |uuids| == |ms| && frame == BuiltFrame(frameId, ms, uuids)
    requires CanBeFramed(ms) && |frame.Bytes()| < TWO_31
    ensures forall k :: 0 <= k < |ms| ==> |ms[k].Payload()| < TWO_31
  {
    ParseOfGroups(ApplyFrame, NO_FRAME, frame.Fields());
    NestedSizes(2, ItemBytes, frame.items, frame.Fields(), 1);
    forall k | 0 <= k < |ms|
      ensures |ms[k].Payload()| < TWO_31
    {
      assert frame.items[k] in frame.items && ms[k] in ms;
      ItemPayloadIsSmall(frame.items[k]);
    }
  }

  lemma ItemPayloadIsSmall(item: FrameItem)
    requires item.WellFormed() && item.data.Some? && |item.Bytes()| < TWO_31
    ensures |item.data.value| < TWO_31
  {
    ParseOfGroups(ApplyItem, NO_ITEM, item.Fields());
    FlattenContains(item.Fields(), 1, LenField(2, item.data.value));
  }

  lemma {:induction false} BuiltItemsDecode(ms: seq<Message>, items: seq<FrameItem>)
    requires |items| == |ms|
    requires forall i :: 0 <= i < |ms| ==> items[i].typ == Some(ms[i].FrameType())
                                           && items[i].data == Some(ms[i].Payload())
    requires forall m :: m in ms ==> m.WellFormed() && |m.Payload()| < TWO_31
    ensures DecodedMessages(PROTOBUF, items) == Decodable(ms)
  {
    if ms != [] {
      var last := |ms| - 1;
      BuiltItemsDecode(ms[..last], items[..last]);
      assert ms[last] in ms;
      PayloadRoundTrip(ms[last]);
    }
  }

  lemma {:induction false} DatabasesAreLeftOut(ms: seq<Message>)
    requires forall m :: m in ms ==> !m.Unsupported?
    ensures Decodable(ms) == NdbTables.Select(ms, (m: Message) => !m.CreateDatabase? && !m.DropDatabase?)
  {
    if ms != [] {
      var last := |ms| - 1;
      assert ms[last] in ms && forall m :: m in ms[..last] ==> m in ms;
      DatabasesAreLeftOut(ms[..last]);
    }
  }

  /** One tuple with the frame's ID and, in order, all operations but those on databases. */
  lemma AtomicBuildThenDecode(id: Bytes, ms: seq<Message>, uuids: seq<Bytes>, identity: Bytes)
    requires |uuids| == |ms| && CanBeFramed(ms)
    requires |BuiltFrame(Some(id), ms, uuids).Bytes()| < TWO_31
    ensures DecodeFrame(PROTOBUF, BuiltFrame(Some(id), ms, uuids).Bytes(), identity)
            == [TupleValue(id, identity, Decodable(ms))]
    ensures Decodable(ms) == NdbTables.Select(ms, (m: Message) => !m.CreateDatabase? && !m.DropDatabase?)
  {
    var frame := BuiltFrame(Some(id), ms, uuids);
    BuiltFrameParses(frame, Some(id), ms, uuids);
    BuiltPayloadsAreSmall(frame, Some(id), ms, uuids);
    BuiltItemsDecode(ms, frame.items);
    DatabasesAreLeftOut(ms);
  }

  /** One tuple per operation with its own ID; an undecodable one only empties its own tuple. */
  lemma SeparateBuildThenDecode(ms: seq<Message>, uuids: seq<Bytes>, identity: Bytes)
    requires |uuids| == |ms| && CanBeFramed(ms)
    requires |BuiltFrame(None, ms, uuids).Bytes()| < TWO_31
    ensures var tuples := DecodeFrame(PROTOBUF, BuiltFrame(None, ms, uuids).Bytes(), identity);
            && |tuples| == |ms|
            && forall i :: 0 <= i < |ms| ==>
                 tuples[i] == if ms[i].CreateDatabase? || ms[i].DropDatabase? then TupleValue([], identity, [])
                              else TupleValue(uuids[i], identity, [ms[i]])
  {
    var frame := BuiltFrame(None, ms, uuids);
    BuiltFrameParses(frame, None, ms, uuids);
    BuiltPayloadsAreSmall(frame, None, ms, uuids);
    forall i | 0 <= i < |ms|
      ensures ItemTuple(PROTOBUF, frame.items[i], identity)
              == if ms[i].CreateDatabase? || ms[i].DropDatabase? then TupleValue([], identity, [])
                 else TupleValue(uuids[i], identity, [ms[i]])
    {
      assert ms[i] in ms;
      PayloadRoundTrip(ms[i]);
    }
  }
}
