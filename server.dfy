/**
 The relay process: the module-level `rooms` and `lastOffers` maps as fields
 of one object, the `message` and `close` handlers as its methods, and an
 outbox that records every `send` in the order the handlers make them.
 Each handler runs to completion before the next event, so each is one call.
 */
module Server {
  import opened Messages
  import opened Members
  import opened Rooms

  class Relay {
    var rooms: map<RoomId, seq<ConnId>>
    var lastOffers: map<RoomId, Payload>
    var outbox: seq<Send>

    /** The two tables as a value. */
    function Snapshot(): Tables
      reads this
    {
      Tables(rooms, lastOffers)
    }

    ghost predicate Valid()
      reads this
    {
      Rooms.Valid(Snapshot())
    }

    constructor ()
      ensures Valid()
      ensures Snapshot() == Initial() && outbox == []
    {
      rooms := map[];
      lastOffers := map[];
      outbox := [];
    }

    /** A `forEach` over `peers` that sends `frame` to each open member not
        in `except`. */
    method SendEach(peers: seq<ConnId>, open: set<ConnId>, except: set<ConnId>, frame: Outgoing)
      modifies this`outbox
      ensures outbox == old(outbox) + FanOut(peers, open, except, frame)
    {
      var i := 0;
      while i < |peers|
        invariant 0 <= i <= |peers|
        invariant outbox == old(outbox) + FanOut(peers[..i], open, except, frame)
      {
        var peer := peers[i];
        assert peers[..i + 1][..i] == peers[..i];
        assert FanOut(peers[..i + 1], open, except, frame)
            == FanOut(peers[..i], open, except, frame)
             + (if peer in open && peer !in except then [Send(peer, frame)] else []);
        if peer in open && peer !in except {
          outbox := outbox + [Send(peer, frame)];
        }
        i := i + 1;
      }
      assert peers[..i] == peers;
    }

    /** The part of the `message` handler that updates the tables: create
        the room if absent, add the sender, cache an `offer` payload. */
    method Enter(ws: ConnId, room: RoomId, kind: string, payload: Payload)
      modifies this`rooms, this`lastOffers
      ensures Snapshot() == Admit(old(Snapshot()), ws, room, kind, payload)
    {
      ghost var before := Snapshot();
      if room !in rooms {
        rooms := rooms[room := []];
      }
      rooms := rooms[room := Add(rooms[room], ws)];
      assert rooms == before.rooms[room := Add(PeersOf(before, room), ws)];
      if kind == "offer" {
        lastOffers := lastOffers[room := payload];
      }
    }

    /** The `message` handler for connection `ws`; `open` is the set of
        connections whose state is OPEN while the handler runs. */
    method OnMessage(ws: ConnId, msg: Decoded, open: set<ConnId>)
      requires Valid()
      modifies this
      ensures Valid()
      ensures Snapshot() == Receive(old(Snapshot()), ws, msg, open).tables
      ensures outbox == old(outbox) + Receive(old(Snapshot()), ws, msg, open).sent
    {
      if !msg.Record? {
        return;
      }
      if msg.room.None? || msg.room.value == "" {
        return;
      }
      var room := msg.room.value;
      ghost var before := Snapshot();
      AdmitKeepsValid(before, ws, room, msg.kind, msg.payload);
      Enter(ws, room, msg.kind, msg.payload);

      if msg.kind == "disconnect" {
        var peers := rooms[room];
        SendEach(peers, open, {}, DisconnectNotice);
        assert Receive(before, ws, msg, open).sent == FanOut(peers, open, {}, DisconnectNotice);
        return;
      }

      var peers := rooms[room];
      SendEach(peers, open, {ws}, Forward(msg.kind, msg.payload));
      ghost var broadcast := FanOut(peers, open, {ws}, Forward(msg.kind, msg.payload));

      if msg.kind == "join" && room in lastOffers {
        var offer := lastOffers[room];
        outbox := outbox + [Send(ws, Forward("offer", offer))];
        assert Receive(before, ws, msg, open).sent == broadcast + [Send(ws, Forward("offer", offer))];
      } else {
        assert Receive(before, ws, msg, open).sent == broadcast + [];
      }
    }

    /** The `close` handler for connection `c`: visits every room once,
        deletes `c` from it, and drops a room left empty from both maps. */
    method OnClose(c: ConnId)
      requires Valid()
      modifies this`rooms, this`lastOffers
      ensures Valid()
      ensures Snapshot() == Close(old(Snapshot()), c)
    {
      ghost var start := Snapshot();
      var pending := rooms.Keys;
      while pending != {}
        invariant pending <= start.rooms.Keys
        invariant Snapshot() == CloseIn(start, c, start.rooms.Keys - pending)
        decreases pending
      {
        var roomId :| roomId in pending;
        CloseInStep(start, c, start.rooms.Keys - pending, roomId);
        assert (start.rooms.Keys - pending) + {roomId} == start.rooms.Keys - (pending - {roomId});
        var members := Remove(rooms[roomId], c);
        if |members| == 0 {
          rooms := rooms - {roomId};
          lastOffers := lastOffers - {roomId};
        } else {
          rooms := rooms[roomId := members];
        }
        pending := pending - {roomId};
      }
      assert start.rooms.Keys - pending == start.rooms.Keys;
      CloseKeepsValid(start, c);
    }
  }
}
