/**
 The relay's two tables, `rooms` (room id to member set) and `lastOffers`
 (room id to the last offer payload), and what one event does to them, as
 functions of the tables before the event. Class `Relay` in module `Server`
 is proved to follow these functions step by step.
 */
module Rooms {
  import opened Messages
  import opened Members

  datatype Tables = Tables(rooms: map<RoomId, seq<ConnId>>, offers: map<RoomId, Payload>)

  /** The tables after an event, and the sends the event made, in order. */
  datatype Outcome = Outcome(tables: Tables, sent: seq<Send>)

  /** What both handlers keep: no room has an empty member set, members are
      held once each, and an offer is cached only for a room that exists. */
  ghost predicate Valid(t: Tables)
  {
    && (forall r :: r in t.rooms ==> t.rooms[r] != [] && NoDup(t.rooms[r]))
    && t.offers.Keys <= t.rooms.Keys
  }

  /** The tables when the process starts: two empty maps. */
  function Initial(): (t: Tables)
    ensures Valid(t)
    ensures t.rooms == map[] && t.offers == map[]
  {
    Tables(map[], map[])
  }

  /** The current members of room `r`, or none when the room does not exist. */
  function PeersOf(t: Tables, r: RoomId): seq<ConnId>
  {
    if r in t.rooms then t.rooms[r] else []
  }

  /** One `forEach` over a member set: `frame` goes to every member, in
      iteration order, that is open and not in `except`. */
  function FanOut(peers: seq<ConnId>, open: set<ConnId>, except: set<ConnId>, frame: Outgoing): (r: seq<Send>)
    ensures |r| <= |peers|
    ensures forall i :: 0 <= i < |r| ==> r[i].frame == frame && r[i].to in peers && r[i].to in open && r[i].to !in except
  {
    if peers == [] then []
    else
      var init := FanOut(peers[..|peers| - 1], open, except, frame);
      var p := peers[|peers| - 1];
      init + (if p in open && p !in except then [Send(p, frame)] else [])
  }

  /** Over a duplicate-free member set, a fan-out delivers exactly one copy of
      the frame to each open, not excluded member and nothing to anyone else. */
  lemma {:induction false} FanOutDelivers(peers: seq<ConnId>, open: set<ConnId>, except: set<ConnId>, frame: Outgoing, p: ConnId)
    requires NoDup(peers)
    ensures SentTo(FanOut(peers, open, except, frame), p)
         == if p in peers && p in open && p !in except then [frame] else []
  {
    if peers != [] {
      var init := peers[..|peers| - 1];
      var q := peers[|peers| - 1];
      assert NoDup(init);
      assert peers == init + [q];
      assert q !in init by {
        forall k | 0 <= k < |init| ensures init[k] != q {
          assert init[k] == peers[k] && peers[k] != peers[|peers| - 1];
        }
      }
      FanOutDelivers(init, open, except, frame, p);
      var tail := if q in open && q !in except then [Send(q, frame)] else [];
      assert FanOut(peers, open, except, frame) == FanOut(init, open, except, frame) + tail;
      SentToAppend(FanOut(init, open, except, frame), tail, p);
      assert SentTo(tail, p) == if q == p && q in open && q !in except then [frame] else [] by {
        if tail != [] {
          assert tail[..0] == [];
        }
      }
    }
  }

  /** The first half of the `message` handler, for a truthy room `r`: the
      room is created if absent, the sender is added to it, and an `offer`
      payload becomes the room's cached offer. */
  function Admit(t: Tables, ws: ConnId, r: RoomId, kind: string, payload: Payload): (u: Tables)
    ensures u.rooms.Keys == t.rooms.Keys + {r}
    ensures Elems(u.rooms[r]) == Elems(PeersOf(t, r)) + {ws}
    ensures forall q :: q in t.rooms && q != r ==> u.rooms[q] == t.rooms[q]
    ensures kind == "offer" ==> u.offers.Keys == t.offers.Keys + {r} && u.offers[r] == payload
    ensures forall q :: q in t.offers && (q != r || kind != "offer") ==> q in u.offers && u.offers[q] == t.offers[q]
    ensures kind != "offer" ==> u.offers == t.offers
  {
    var offers := if kind == "offer" then t.offers[r := payload] else t.offers;
    Tables(t.rooms[r := Add(PeersOf(t, r), ws)], offers)
  }

  /** The `message` handler. A frame that does not decode, or whose room is
      falsy, changes nothing and sends nothing. Otherwise the tables become
      those of `Admit`; a `disconnect` then goes to every open member, the
      sender included, and handling stops; any other type is sent as
      `{type, payload}` to the other open members, and a `join` is then
      answered with the room's cached offer, if any. */
  function Receive(t: Tables, ws: ConnId, msg: Decoded, open: set<ConnId>): (o: Outcome)
    ensures !Addressed(msg) ==> o == Outcome(t, [])
    ensures Addressed(msg) ==> o.tables == Admit(t, ws, msg.room.value, msg.kind, msg.payload)
  {
    if !Addressed(msg) then Outcome(t, [])
    else
      var r := msg.room.value;
      var u := Admit(t, ws, r, msg.kind, msg.payload);
      var peers := u.rooms[r];
      if msg.kind == "disconnect" then
        Outcome(u, FanOut(peers, open, {}, DisconnectNotice))
      else
        var broadcast := FanOut(peers, open, {ws}, Forward(msg.kind, msg.payload));
        var reply := if msg.kind == "join" && r in u.offers then [Send(ws, Forward("offer", u.offers[r]))] else [];
        Outcome(u, broadcast + reply)
  }

  /** The `close` handler after it has visited the rooms in `done`: each
      visited room has lost `c`, and a visited room left empty is gone from
      both tables. */
  function CloseIn(t: Tables, c: ConnId, done: set<RoomId>): Tables
  {
    var emptied := set r | r in done && r in t.rooms && Remove(t.rooms[r], c) == [];
    Tables(
      map r | r in t.rooms && r !in emptied :: if r in done then Remove(t.rooms[r], c) else t.rooms[r],
      t.offers - emptied)
  }

  /** Visiting one more room in the `close` handler: it is still as it was,
      loses `c`, and goes from both tables if that leaves it empty. */
  lemma CloseInStep(t: Tables, c: ConnId, done: set<RoomId>, r: RoomId)
    requires r in t.rooms && r !in done
    ensures var u := CloseIn(t, c, done);
            var m := Remove(t.rooms[r], c);
            && r in u.rooms && u.rooms[r] == t.rooms[r]
            && CloseIn(t, c, done + {r})
               == if m == [] then Tables(u.rooms - {r}, u.offers - {r}) else Tables(u.rooms[r := m], u.offers)
  {
  }

  /** The `close` handler, after visiting every room. */
  function Close(t: Tables, c: ConnId): (u: Tables)
    ensures forall r :: r in u.rooms ==> c !in u.rooms[r]
    ensures u.rooms.Keys <= t.rooms.Keys
    ensures forall r :: r in t.rooms ==> (r in u.rooms <==> !(Elems(t.rooms[r]) <= {c}))
    ensures forall r :: r in u.rooms ==> Elems(u.rooms[r]) == Elems(t.rooms[r]) - {c}
    ensures forall r :: r in t.rooms && c !in t.rooms[r] && t.rooms[r] != [] ==> r in u.rooms && u.rooms[r] == t.rooms[r]
    ensures forall r :: r in t.rooms && r !in u.rooms ==> r !in u.offers
    ensures forall r :: r in t.offers && (r in u.rooms || r !in t.rooms) ==> r in u.offers && u.offers[r] == t.offers[r]
    ensures u.offers.Keys <= t.offers.Keys
  {
    CloseIn(t, c, t.rooms.Keys)
  }

  /** The `message` handler keeps the invariant. */
  lemma AdmitKeepsValid(t: Tables, ws: ConnId, r: RoomId, kind: string, payload: Payload)
    requires Valid(t)
    ensures Valid(Admit(t, ws, r, kind, payload))
  {
  }

  /** The `close` handler keeps the invariant. */
  lemma CloseKeepsValid(t: Tables, c: ConnId)
    requires Valid(t)
    ensures Valid(Close(t, c))
  {
  }

  /** Membership is a set: two messages from the same connection naming the
      same room leave `rooms` as the first one did. */
  lemma ReceiveJoinIdempotent(t: Tables, ws: ConnId, m1: Decoded, m2: Decoded, open1: set<ConnId>, open2: set<ConnId>)
    requires Addressed(m1) && Addressed(m2) && m1.room == m2.room
    ensures var once := Receive(t, ws, m1, open1).tables;
            Receive(once, ws, m2, open2).tables.rooms == once.rooms
  {
  }

  /** A `disconnect` in room R sends one `{type: "disconnect"}` to every open
      member of R, the sender included, and nothing else to anyone. */
  lemma DisconnectNotifiesOpenMembers(t: Tables, ws: ConnId, msg: Decoded, open: set<ConnId>)
    requires Valid(t)
    requires Addressed(msg) && msg.kind == "disconnect"
    ensures var o := Receive(t, ws, msg, open);
            forall p :: SentTo(o.sent, p)
                     == if p in o.tables.rooms[msg.room.value] && p in open then [DisconnectNotice] else []
  {
    var r := msg.room.value;
    var peers := Add(PeersOf(t, r), ws);
    assert NoDup(PeersOf(t, r));
    forall p ensures SentTo(FanOut(peers, open, {}, DisconnectNotice), p)
                  == if p in peers && p in open then [DisconnectNotice] else [] {
      FanOutDelivers(peers, open, {}, DisconnectNotice, p);
    }
  }

  /** Any type other than `disconnect` reaches every open member of the room
      other than the sender exactly once, as `{type, payload}`; closed members
      receive nothing. */
  lemma BroadcastReachesOpenPeers(t: Tables, ws: ConnId, msg: Decoded, open: set<ConnId>)
    requires Valid(t)
    requires Addressed(msg) && msg.kind != "disconnect"
    ensures var o := Receive(t, ws, msg, open);
            forall p :: p != ws ==>
              SentTo(o.sent, p)
              == if p in o.tables.rooms[msg.room.value] && p in open then [Forward(msg.kind, msg.payload)] else []
  {
    var r := msg.room.value;
    var peers := Add(PeersOf(t, r), ws);
    var frame := Forward(msg.kind, msg.payload);
    var o := Receive(t, ws, msg, open);
    var broadcast := FanOut(peers, open, {ws}, frame);
    var reply := o.sent[|broadcast|..];
    assert o.sent == broadcast + reply;
    assert NoDup(PeersOf(t, r));
    forall p | p != ws
      ensures SentTo(o.sent, p) == if p in peers && p in open then [frame] else []
    {
      FanOutDelivers(peers, open, {ws}, frame, p);
      SentToAppend(broadcast, reply, p);
      assert SentTo(reply, p) == [];
    }
  }

  /** Apart from a `disconnect`, the sender receives exactly one frame when
      its message is a `join` and the room has a cached offer: that offer, as
      the last send of the event. Otherwise the sender receives nothing. */
  lemma JoinReplaysCachedOffer(t: Tables, ws: ConnId, msg: Decoded, open: set<ConnId>)
    requires Addressed(msg) && msg.kind != "disconnect"
    ensures var o := Receive(t, ws, msg, open);
            var r := msg.room.value;
            && SentTo(o.sent, ws)
               == (if msg.kind == "join" && r in t.offers then [Forward("offer", t.offers[r])] else [])
            && (msg.kind == "join" && r in t.offers ==>
                  o.sent[|o.sent| - 1] == Send(ws, Forward("offer", t.offers[r])))
  {
    var r := msg.room.value;
    var peers := Add(PeersOf(t, r), ws);
    var o := Receive(t, ws, msg, open);
    var broadcast := FanOut(peers, open, {ws}, Forward(msg.kind, msg.payload));
    var reply := if msg.kind == "join" && r in t.offers then [Send(ws, Forward("offer", t.offers[r]))] else [];
    assert o.sent == broadcast + reply;
    SentToAppend(broadcast, reply, ws);
    NothingTo(broadcast, ws);
    assert SentTo(reply, ws) == if reply == [] then [] else [reply[0].frame] by {
      if reply != [] {
        assert reply[..0] == [];
      }
    }
  }

  /** Sends that all go elsewhere deliver nothing to `p`. */
  lemma {:induction false} NothingTo(sent: seq<Send>, p: ConnId)
    requires forall s :: s in sent ==> s.to != p
    ensures SentTo(sent, p) == []
  {
    if sent != [] {
      assert sent[..|sent| - 1] <= sent;
      NothingTo(sent[..|sent| - 1], p);
    }
  }
}
