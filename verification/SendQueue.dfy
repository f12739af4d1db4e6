/**
 A WebSocket connection's send queue, one operation at a time: sending without blocking,
 closing, and the writer that packs waiting messages into frames.
 */
module SendQueue {
  import opened Fnv
  import opened Framing
  import opened Wrappers

  const QUEUE_CAPACITY: nat := 256

  // Panicked: a send on a closed channel
  datatype SendOutcome = Ignored | Enqueued | Dropped | Panicked

  class WSConnection {
    var send: seq<Bytes>  // the buffered channel
    var sendClosed: bool  // whether the channel has been closed
    var closed: bool
    var dropped: nat

    ghost predicate Valid()
      reads this
    {
      |send| <= QUEUE_CAPACITY && (sendClosed ==> closed)
    }

    constructor ()
      ensures Valid() && send == [] && !closed && dropped == 0
    {
      send, sendClosed, closed, dropped := [], false, false, 0;
    }

    // A select with a default: never blocks
    method TrySend(msg: Bytes) returns (outcome: SendOutcome)
      requires Valid()
      modifies `send, `dropped
      ensures Valid()
      ensures outcome == if sendClosed then Panicked else if |old(send)| < 256 then Enqueued else Dropped
      ensures send == if outcome == Enqueued then old(send) + [msg] else old(send)
      ensures dropped == if outcome == Dropped then old(dropped) + 1 else old(dropped)
    {
      if sendClosed {
        return Panicked;
      }
      if |send| < QUEUE_CAPACITY {
        send := send + [msg];
        return Enqueued;
      }
      dropped := dropped + 1;
      return Dropped;
    }

    /** Unlike a bare send, it cannot panic: the channel is only closed once the flag is set. */
    method SafeSend(msg: Bytes) returns (outcome: SendOutcome)
      requires Valid()
      modifies `send, `dropped
      ensures Valid()
      ensures outcome == if closed then Ignored else if |old(send)| < 256 then Enqueued else Dropped
      ensures send == if outcome == Enqueued then old(send) + [msg] else old(send)
      ensures dropped == if outcome == Dropped then old(dropped) + 1 else old(dropped)
    {
      if closed {
        return Ignored;
      }
      outcome := TrySend(msg);
    }

    // Under the lock, the reader sets the flag; from here on SafeSend ignores its message
    method MarkClosed()
      requires Valid()
      modifies `closed
      ensures Valid() && closed
    {
      closed := true;
    }

    // Closing the channel keeps the connection valid only because the flag is already set
    method CloseChannel()
      requires Valid() && closed && !sendClosed
      modifies `sendClosed
      ensures Valid() && sendClosed
    {
      sendClosed := true;
    }

    /** The deferred close path: first the flag, then the channel. */
    method Close()
      requires Valid() && !sendClosed
      modifies `closed, `sendClosed
      ensures Valid() && closed && sendClosed
    {
      MarkClosed();
      CloseChannel();
    }

    /** One frame that nothing interferes with: the eleven oldest messages, or all if there
        are fewer, in order. */
    method WriteFrame() returns (payload: Bytes, ghost messages: seq<Bytes>)
      requires Valid() && send != []
      modifies `send
      ensures Valid() && FrameOk(Frame(messages, payload))
      ensures |messages| == Least(FRAME_MESSAGES, |old(send)|)
      ensures messages + send == old(send)
    {
      payload := send[0];
      messages := [send[0]];
      send := send[1..];
      var n := |send|;
      var i := 0;
      while i < n && i < 10
        invariant 0 <= i <= n && i <= 10 && |send| == n - i
        invariant |messages| == i + 1 && payload == Joined(messages)
        invariant messages + send == old(send)
      {
        payload := payload + [NEWLINE];
        // The default of this select, which would leave a stray newline, never fires
        if |send| > 0 {
          JoinedExtends(messages, send[0]);
          payload := payload + send[0];
          messages := messages + [send[0]];
          send := send[1..];
        }
        i := i + 1;
      }
    }

    /** The writer on a closed channel: every waiting message is delivered, in order, in as
        few frames as their size limit allows, before the close frame. */
    method DrainAfterClose() returns (payloads: seq<Bytes>, ghost frames: seq<Frame>)
      requires Valid() && sendClosed
      modifies `send
      ensures send == [] && Flatten(frames) == old(send)
      ensures forall f :: f in frames ==> FrameOk(f)
      ensures |frames| == (|old(send)| + FRAME_MESSAGES - 1) / FRAME_MESSAGES
      ensures |payloads| == |frames| && forall k :: 0 <= k < |frames| ==> payloads[k] == frames[k].payload
    {
      payloads, frames := [], [];
      while |send| > 0
        invariant Valid() && sendClosed && Flatten(frames) + send == old(send)
        invariant forall f :: f in frames ==> FrameOk(f)
        invariant |send| > 0 ==> |Flatten(frames)| == FRAME_MESSAGES * |frames|
        invariant |frames| == (|Flatten(frames)| + FRAME_MESSAGES - 1) / FRAME_MESSAGES
        invariant |payloads| == |frames| && forall k :: 0 <= k < |frames| ==> payloads[k] == frames[k].payload
        decreases |send|
      {
        ghost var before := send;
        var payload, messages := WriteFrame();
        FlattenExtends(frames, Frame(messages, payload));
        assert Flatten(frames) + messages + send == Flatten(frames) + before;
        frames := frames + [Frame(messages, payload)];
        payloads := payloads + [payload];
      }
    }
  }

  // One select of a broadcast on a connection whose channel is open
  twostate predicate Offered(c: WSConnection, msg: Bytes)
    reads c
  {
    var room := |old(c.send)| < 256;
    && c.send == (if room then old(c.send) + [msg] else old(c.send))
    && c.dropped == (if room then old(c.dropped) else old(c.dropped) + 1)
  }

  /** A broadcast that nothing interferes with, over the registered connections in some order:
      it panics exactly if it meets a connection that is closed but still registered, and
      otherwise every connection has the message at the end of its queue or counts a drop. */
  method Broadcast(connections: set<WSConnection>, msg: Bytes) returns (panicked: bool)
    requires forall c :: c in connections ==> c.Valid()
    modifies connections
    ensures panicked <==> exists c :: c in connections && c.sendClosed
    ensures forall c :: c in connections ==> c.Valid() && c.sendClosed == old(c.sendClosed)
    ensures !panicked ==> forall c :: c in connections ==> Offered(c, msg)
  {
    var rest := connections;
    while rest != {}
      invariant rest <= connections
      invariant forall c :: c in connections ==> c.Valid() && c.sendClosed == old(c.sendClosed) && c.closed == old(c.closed)
      invariant forall c :: c in connections - rest ==> !c.sendClosed && Offered(c, msg)
      invariant forall c :: c in rest ==> c.send == old(c.send) && c.dropped == old(c.dropped)
      decreases rest
    {
      var c :| c in rest;
      var outcome := c.TrySend(msg);
      if outcome == Panicked {
        return true;
      }
      rest := rest - {c};
    }
    return false;
  }
}
