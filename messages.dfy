/**
 The values the relay receives and emits: connection ids, the decoded inbound
 record `{type, room, payload}`, the outgoing frames, and the log of sends.
 */
module Messages {

  datatype Option<T> = None | Some(value: T)

  /** A WebSocket connection, identified by an id. */
  type ConnId = nat

  /** A room key as the client supplies it. */
  type RoomId = string

  /** The `payload` field, opaque to the relay: it is only stored and copied. */
  type Payload = string

  /** An inbound text frame after decoding. `Unparseable` stands for every
      frame whose decoding or destructuring throws; the handler catches that. */
  datatype Decoded =
    | Unparseable
    | Record(kind: string, room: Option<RoomId>, payload: Payload)

  /** A frame the relay writes: `{type: "disconnect"}` or `{type, payload}`
      (the relay never echoes `room`). */
  datatype Outgoing =
    | DisconnectNotice
    | Forward(kind: string, payload: Payload)

  /** One call of `send` on a connection. */
  datatype Send = Send(to: ConnId, frame: Outgoing)

  /** The record was decoded and its `room` is truthy, i.e. present and not "". */
  predicate Addressed(msg: Decoded)
  {
    msg.Record? && msg.room.Some? && msg.room.value != ""
  }

  /** The frames that `sent` delivers to connection `p`, in order. */
  function SentTo(sent: seq<Send>, p: ConnId): (r: seq<Outgoing>)
    ensures |r| <= |sent|
    ensures forall f :: f in r ==> Send(p, f) in sent
  {
    if sent == [] then []
    else
      var last := sent[|sent| - 1];
      SentTo(sent[..|sent| - 1], p) + (if last.to == p then [last.frame] else [])
  }

  /** What a connection receives from two batches of sends is what it receives
      from the first followed by what it receives from the second. */
  lemma {:induction false} SentToAppend(a: seq<Send>, b: seq<Send>, p: ConnId)
    ensures SentTo(a + b, p) == SentTo(a, p) + SentTo(b, p)
  {
    if b == [] {
      assert a + b == a;
    } else {
      var b' := b[..|b| - 1];
      assert (a + b)[..|a + b| - 1] == a + b';
      SentToAppend(a, b', p);
    }
  }
}
