/** The protobuf messages a frame can carry and their frame types (FrameUtils.cpp). */
module Messages {
  import opened Wrappers
  import opened Wire
  import opened FrameCodec
  import opened OperationCodec
  import opened ResultCodec

  datatype Message =
    | CreateDatabase(name: Bytes)
    | DropDatabase(name: Bytes)
    | CreateStore(definition: StoreDefinition)
    | DropStore(definition: StoreDefinition)
    | Set(operation: Manipulation)
    | Get(operation: Manipulation)
    | Delete(operation: Manipulation)
    | ServerResponse(result: Result)
    | Unsupported(raw: Bytes)
  {
    /** FrameUtils::getFrameType. */
    function FrameType(): int32 {
      match this
      case CreateDatabase(_) => CREATE_DATABASE
      case DropDatabase(_) => DROP_DATABASE
      case CreateStore(_) => CREATE_STORE
      case DropStore(_) => DROP_STORE
      case Set(_) => SET
      case Get(_) => GET
      case Delete(_) => DELETE
      case ServerResponse(_) => SERVER_RESPONSE
      case Unsupported(_) => NONE
    }

    /** FrameUtils::isDefinitionFrame. */
    predicate IsDefinition() {
      CreateDatabase? || DropDatabase? || CreateStore? || DropStore?
    }

    /** The three operations that go into an NDB transaction. */
    predicate IsManipulation() { Set? || Get? || Delete? }

    /** The serialised message, as it is stored in FrameItem.data. */
    function Payload(): Bytes {
      match this
      case CreateDatabase(name) => LenField(1, name).Emit()
      case DropDatabase(name) => LenField(1, name).Emit()
      case CreateStore(d) => d.Bytes()
      case DropStore(d) => d.Bytes()
      case Set(o) => o.Bytes()
      case Get(o) => o.Bytes()
      case Delete(o) => o.Bytes()
      case ServerResponse(r) => r.Bytes()
      case Unsupported(raw) => raw
    }

    /** The six types FrameDecoder::decode knows. */
    predicate IsDecodable() {
      CreateStore? || DropStore? || IsManipulation() || ServerResponse?
    }

    /** A message that its own setters can build and that is initialised. */
    ghost predicate WellFormed() {
      match this
      case CreateStore(d) => d.WellFormed() && d.IsInitialized()
      case DropStore(d) => d.WellFormed() && d.IsInitialized() && d.columns == []
      case Set(o) => o.WellFormed() && o.IsInitialized()
      case Get(o) => o.WellFormed() && o.IsInitialized()
      case Delete(o) => o.WellFormed() && o.IsInitialized() && o.value == []
      case ServerResponse(r) => r.WellFormed() && r.IsInitialized()
      case _ => true
    }
  }

  function Manipulations(parsed: Option<Manipulation>): Option<Manipulation> {
    if parsed.Some? && parsed.value.IsInitialized() then parsed else None
  }

  function Definitions(parsed: Option<StoreDefinition>): Option<StoreDefinition> {
    if parsed.Some? && parsed.value.IsInitialized() then parsed else None
  }

  /** What FrameDecoder::decode makes of one item's type and data; None is "Ignoring". */
  function DecodePayload(typ: int32, data: Bytes): Option<Message> {
    if typ == CREATE_STORE then
      match Definitions(ParseWith(ApplyCreateStore, NO_STORE_DEFINITION, data))
      case Some(d) => Some(CreateStore(d))
      case None => None
    else if typ == DROP_STORE then
      match Definitions(ParseWith(ApplyDropStore, NO_STORE_DEFINITION, data))
      case Some(d) => Some(DropStore(d))
      case None => None
    else if typ == SERVER_RESPONSE then
      match ParseResult(data)
      case Some(r) => Some(ServerResponse(r))
      case None => None
    else if typ == SET then
      match Manipulations(ParseWith(ApplySetOrGet, NO_MANIPULATION, data))
      case Some(o) => Some(Set(o))
      case None => None
    else if typ == DELETE then
      match Manipulations(ParseWith(ApplyDelete, NO_MANIPULATION, data))
      case Some(o) => Some(Delete(o))
      case None => None
    else if typ == GET then
      match Manipulations(ParseWith(ApplySetOrGet, NO_MANIPULATION, data))
      case Some(o) => Some(Get(o))
      case None => None
    else None
  }

  lemma DefinitionPayloadRoundTrip(m: Message)
    requires m.WellFormed() && |m.Payload()| < TWO_31 && m.IsDefinition()
    ensures DecodePayload(m.FrameType(), m.Payload()) == if m.IsDecodable() then Some(m) else None
  {
    match m
    case CreateStore(d) => CreateStoreRoundTrip(d);
    case DropStore(d) => DropStoreRoundTrip(d);
    case _ =>
  }

  lemma SetOrGetPayloadRoundTrip(o: Manipulation)
    requires o.WellFormed() && o.IsInitialized() && |o.Bytes()| < TWO_31
    ensures DecodePayload(SET, o.Bytes()) == Some(Set(o))
    ensures DecodePayload(GET, o.Bytes()) == Some(Get(o))
  {
    SetOrGetRoundTrip(o);
  }

  lemma DeletePayloadRoundTrip(o: Manipulation)
    requires o.WellFormed() && o.IsInitialized() && o.value == [] && |o.Bytes()| < TWO_31
    ensures DecodePayload(DELETE, o.Bytes()) == Some(Delete(o))
  {
    DeleteRoundTrip(o);
  }

  lemma ResponsePayloadRoundTrip(r: Result)
    requires r.WellFormed() && r.IsInitialized() && |r.Bytes()| < TWO_31
    ensures DecodePayload(SERVER_RESPONSE, r.Bytes()) == Some(ServerResponse(r))
  {
    ResultRoundTrip(r);
  }

  /**
   The six types that are decoded come back from their number and payload; databases, and whatever has no
   number of its own, do not, and what is under another number is ignored too.
   */
  lemma PayloadRoundTrip(m: Message)
    requires m.WellFormed() && |m.Payload()| < TWO_31
    ensures DecodePayload(m.FrameType(), m.Payload()) == if m.IsDecodable() then Some(m) else None
    ensures m.CreateStore? ==> DecodePayload(4, m.Payload()) == Some(m)
    ensures m.DropStore? ==> DecodePayload(5, m.Payload()) == Some(m)
    ensures m.Set? ==> DecodePayload(6, m.Payload()) == Some(m)
    ensures m.Get? ==> DecodePayload(7, m.Payload()) == Some(m)
    ensures m.Delete? ==> DecodePayload(8, m.Payload()) == Some(m)
    ensures m.ServerResponse? ==> DecodePayload(9, m.Payload()) == Some(m)
    ensures m.CreateDatabase? || m.DropDatabase? || m.Unsupported? ==>
              && DecodePayload(m.FrameType(), m.Payload()) == None
              && m.FrameType() == if m.CreateDatabase? then 2 else if m.DropDatabase? then 3 else 1
    ensures forall typ: int32 :: !(4 <= typ <= 9) ==> DecodePayload(typ, m.Payload()) == None
  {
    match m
    case ServerResponse(r) => ResponsePayloadRoundTrip(r);
    case Set(o) => SetOrGetPayloadRoundTrip(o);
    case Get(o) => SetOrGetPayloadRoundTrip(o);
    case Delete(o) => DeletePayloadRoundTrip(o);
    case Unsupported(_) =>
    case _ => DefinitionPayloadRoundTrip(m);
  }
}
