/** ZeroMQ message parts, sockets as queues of parts, and the bounded drain (TransportUtils.cpp). */
module Transport {
  import opened Wrappers
  import opened Wire

  /** zmq::message_t: sending it hands its content to the socket and leaves it empty. */
  class ZmqMessage {
    var data: Bytes

    constructor (data: Bytes)
      ensures this.data == data
    {
      this.data := data;
    }

    method Copy(source: ZmqMessage)
      modifies this
      ensures data == old(source.data)
    {
      data := source.data;
    }
  }

  /** A part and whether more parts of the same message follow. */
  datatype Part = Part(data: Bytes, more: bool)

  /** A socket, seen as the queue of parts between its two ends. */
  class ZmqSocket {
    var queue: seq<Part>

    constructor ()
      ensures queue == []
    {
      queue := [];
    }

    method Send(message: ZmqMessage, more: bool)
      modifies this, message
      ensures queue == old(queue) + [Part(old(message.data), more)]
      ensures message.data == []
    {
      queue := queue + [Part(message.data, more)];
      message.data := [];
    }

    /** A non-blocking receive; None is EAGAIN. */
    method Receive() returns (part: Option<Part>)
      modifies this
      ensures old(queue) == [] ==> part == None && queue == []
      ensures old(queue) != [] ==> part == Some(old(queue)[0]) && queue == old(queue)[1..]
    {
      if queue == [] {
        return None;
      }
      part := Some(queue[0]);
      queue := queue[1..];
    }
  }

  /** Drains the queue, or stops at `readLimit` parts when that is positive. */
  method ReceiveQueuedMessages(socket: ZmqSocket, readLimit: int) returns (received: seq<Part>)
    modifies socket
    ensures received + socket.queue == old(socket.queue)
    ensures if 0 < readLimit < |old(socket.queue)| then |received| == readLimit else socket.queue == []
  {
    received := [];
    while true
      invariant received + socket.queue == old(socket.queue)
      invariant readLimit > 0 ==> |received| < readLimit
      decreases |socket.queue|
    {
      var part := socket.Receive();
      match part
      case Some(p) =>
        received := received + [p];
        if readLimit > 0 && |received| == readLimit {
          break;
        }
      case None =>
        break;
    }
  }

  // ---------------------------------------------------------------- two-part messages

  /** A client identity and a frame, sent as one two-part message. */
  datatype Envelope = Envelope(identity: Bytes, frame: Bytes)

  function EnvelopeParts(e: Envelope): seq<Part> { [Part(e.identity, true), Part(e.frame, false)] }

  function PartsOf(es: seq<Envelope>): (ps: seq<Part>)
    ensures |ps| == 2 * |es|
  {
    if es == [] then [] else EnvelopeParts(es[0]) + PartsOf(es[1..])
  }

  lemma {:induction false} PartsOfAt(es: seq<Envelope>, k: nat)
    requires k < |es|
    ensures PartsOf(es)[2 * k] == Part(es[k].identity, true)
    ensures PartsOf(es)[2 * k + 1] == Part(es[k].frame, false)
  {
    if k > 0 {
      PartsOfAt(es[1..], k - 1);
    }
  }

  lemma {:induction false} PartsOfSnoc(es: seq<Envelope>, e: Envelope)
    ensures PartsOf(es + [e]) == PartsOf(es) + EnvelopeParts(e)
  {
    if es == [] {
      assert es + [e] == [e];
    } else {
      PartsOfSnoc(es[1..], e);
      assert (es + [e])[1..] == es[1..] + [e];
    }
  }

  /**
   The forwarding half of worker_thread_handler: takes the drained parts two by two. Whatever
   replies were waiting in the sink leave through the worker socket whole and in order.
   */
  method ForwardReplies(sink: ZmqSocket, worker: ZmqSocket, ghost waiting: seq<Envelope>)
    requires sink != worker && sink.queue == PartsOf(waiting)
    modifies sink, worker
    ensures sink.queue == []
    ensures worker.queue == old(worker.queue) + PartsOf(waiting)
  {
    var all := ReceiveQueuedMessages(sink, -1);
    var i := 0;
    while i < |all|
      invariant i % 2 == 0 && i <= |all|
      invariant sink.queue == []
      invariant worker.queue == old(worker.queue) + all[..i]
    {
      PartsOfAt(waiting, i / 2);
      var identity := new ZmqMessage(all[i].data);
      var frame := new ZmqMessage(all[i + 1].data);
      worker.Send(identity, true);
      worker.Send(frame, false);
      assert all[..i + 2] == all[..i] + [all[i]] + [all[i + 1]];
      i := i + 2;
    }
  }
}
