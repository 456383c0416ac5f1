/** Building a frame message by message (FrameBuilder.cpp). */
module FrameBuilding {
  import opened Wrappers
  import opened Wire
  import opened FrameCodec
  import opened Messages

  /** The item a message becomes; only items of non-atomic frames carry their own identifier. */
  function ItemFor(m: Message, identifier: Option<Bytes>): FrameItem {
    FrameCodec.FrameItem(Some(m.FrameType()), Some(m.Payload()), identifier, [])
  }

  class FrameBuilder {
    var frame: Frame

    constructor (isAtomic: bool, uuid: Bytes)
      ensures frame == FrameCodec.Frame(if isAtomic then Some(uuid) else None, [], [])
    {
      frame := NO_FRAME;
      if isAtomic {
        frame := FrameCodec.Frame(Some(uuid), [], []);
      }
    }

    /** Appends one item; None is the runtime_error for a type that cannot be framed. */
    method AddFrame(message: Message, uuid: Bytes) returns (itemIdentifier: Option<Bytes>)
      modifies this
      ensures itemIdentifier.None? <==> message.Unsupported?
      ensures message.Unsupported? ==> frame == old(frame)
      ensures !message.Unsupported? ==>
                && var own := if old(frame).identifier.Some? then None else Some(uuid);
                && frame == old(frame).(items := old(frame).items + [ItemFor(message, own)])
                && itemIdentifier == Some(own.GetOr([]))
    {
      var messageType := message.FrameType();
      if messageType == NONE {
        return None;
      }
      var item := NO_ITEM;
      var frameItemIdentifier := [];
      if frame.identifier.None? {
        frameItemIdentifier := uuid;
        item := item.(identifier := Some(frameItemIdentifier));
      }
      item := item.(typ := Some(messageType), data := Some(message.Payload()));
      frame := frame.(items := frame.items + [item]);
      return Some(frameItemIdentifier);
    }

    method GetBytes() returns (bytes: Bytes)
      ensures bytes == frame.Bytes()
    {
      bytes := frame.Bytes();
    }
  }

  /** A frame for one message: not atomic, one item with an empty identifier. */
  function SingleFrame(m: Message): Frame {
    FrameCodec.Frame(None, [ItemFor(m, Some([]))], [])
  }

  method GetBytesOfFrameWithMessage(message: Message) returns (bytes: Option<Bytes>)
    ensures bytes == if message.Unsupported? then None else Some(SingleFrame(message).Bytes())
  {
    var builder := new FrameBuilder(false, []);
    var added := builder.AddFrame(message, []);
    if added.None? {
      return None;
    }
    assert builder.frame == SingleFrame(message);
    var frameBytes := builder.GetBytes();
    return Some(frameBytes);
  }
}
