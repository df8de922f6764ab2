/**
 Properties of the relay over several events: the invariant over any run,
 room membership as a function of the event history, the late-join replay,
 and what is left of a room once its last member has closed.
 */
module Lifecycle {
  import opened Messages
  import opened Members
  import opened Rooms

  /** One handler invocation: a frame from `ws` while `open` are OPEN, or a close of `c`. */
  datatype Event =
    | Message(ws: ConnId, msg: Decoded, open: set<ConnId>)
    | Closed(c: ConnId)

  /** The tables after the events, one at a time, from `t`. */
  function Run(t: Tables, events: seq<Event>): Tables
  {
    if events == [] then t
    else
      var last := events[|events| - 1];
      var before := Run(t, events[..|events| - 1]);
      match last
      case Message(ws, msg, open) => Receive(before, ws, msg, open).tables
      case Closed(c) => Close(before, c)
  }

  /** From any tables that satisfy the invariant, `Initial()` among them,
      every run keeps each room non-empty and free of duplicates, and caches
      offers only for rooms that exist. */
  lemma {:induction false} RunKeepsValid(t: Tables, events: seq<Event>)
    requires Valid(t)
    ensures Valid(Run(t, events))
  {
    if events != [] {
      var before := Run(t, events[..|events| - 1]);
      RunKeepsValid(t, events[..|events| - 1]);
      match events[|events| - 1]
      case Message(ws, msg, open) =>
        if Addressed(msg) {
          AdmitKeepsValid(before, ws, msg.room.value, msg.kind, msg.payload);
        }
      case Closed(c) =>
        CloseKeepsValid(before, c);
    }
  }

  /** Late join: after `a` sends an offer in room `r`, a connection `b` that
      was not in the room and then sends `join` in `r` receives exactly one
      frame over both events, the offer `a` sent. */
  lemma LateJoinerReceivesOffer(t: Tables, a: ConnId, b: ConnId, r: RoomId, offer: Payload, joinPayload: Payload,
                                open1: set<ConnId>, open2: set<ConnId>)
    requires Valid(t)
    requires a != b && r != "" && b !in PeersOf(t, r)
    ensures var o1 := Receive(t, a, Record("offer", Some(r), offer), open1);
            var o2 := Receive(o1.tables, b, Record("join", Some(r), joinPayload), open2);
            SentTo(o1.sent, b) + SentTo(o2.sent, b) == [Forward("offer", offer)]
  {
    var m1 := Record("offer", Some(r), offer);
    var m2 := Record("join", Some(r), joinPayload);
    var o1 := Receive(t, a, m1, open1);
    AdmitKeepsValid(t, a, r, "offer", offer);
    BroadcastReachesOpenPeers(t, a, m1, open1);
    assert b !in Elems(o1.tables.rooms[r]);
    assert SentTo(o1.sent, b) == [];
    JoinReplaysCachedOffer(o1.tables, b, m2, open2);
  }

  /** Once the last member of room `r` has closed, the room and its cached
      offer are gone, and a `join` in `r` is answered with nothing at all:
      the joiner is then the room's only member. */
  lemma EmptiedRoomForgetsOffer(t: Tables, c: ConnId, ws: ConnId, r: RoomId, payload: Payload, open: set<ConnId>)
    requires Valid(t)
    requires r in t.rooms && Elems(t.rooms[r]) == {c} && r != ""
    ensures var u := Close(t, c);
            var o := Receive(u, ws, Record("join", Some(r), payload), open);
            && r !in u.rooms && r !in u.offers
            && o.sent == []
            && Elems(o.tables.rooms[r]) == {ws} && r !in o.tables.offers
  {
  }

  /** Connection `p` is recorded as a member of room `r`. */
  predicate IsMember(t: Tables, p: ConnId, r: RoomId)
  {
    r in t.rooms && p in t.rooms[r]
  }

  /** The event is a decodable message from `p` whose room is `r`. */
  predicate Names(e: Event, p: ConnId, r: RoomId)
  {
    e.Message? && e.ws == p && Addressed(e.msg) && e.msg.room.value == r
  }

  /** Some event sent by `p` names room `r`, and `p` has not closed since. */
  ghost predicate JoinedSince(events: seq<Event>, p: ConnId, r: RoomId)
  {
    exists i :: 0 <= i < |events| && Names(events[i], p, r)
      && forall j :: i < j < |events| ==> events[j] != Closed(p)
  }

  /** A message makes its sender a member of its room and changes no other
      membership. */
  lemma ReceiveMembership(t: Tables, ws: ConnId, msg: Decoded, open: set<ConnId>, p: ConnId, r: RoomId)
    ensures IsMember(Receive(t, ws, msg, open).tables, p, r)
        <==> (ws == p && Addressed(msg) && msg.room.value == r) || IsMember(t, p, r)
  {
  }

  /** A close of `c` takes `c` out of every room and changes no other
      membership. */
  lemma CloseMembership(t: Tables, c: ConnId, p: ConnId, r: RoomId)
    ensures IsMember(Close(t, c), p, r) <==> p != c && IsMember(t, p, r)
  {
    var u := Close(t, c);
    if p != c && IsMember(t, p, r) {
      assert p in Elems(t.rooms[r]);
      assert r in u.rooms;
      assert p in Elems(u.rooms[r]);
    }
    if IsMember(u, p, r) {
      assert p in Elems(u.rooms[r]);
    }
  }

  /** The history condition over a non-empty run, split at its last event. */
  lemma JoinedSinceLast(events: seq<Event>, p: ConnId, r: RoomId)
    requires events != []
    ensures var init := events[..|events| - 1];
            var last := events[|events| - 1];
            JoinedSince(events, p, r)
            <==> last != Closed(p) && (Names(last, p, r) || JoinedSince(init, p, r))
  {
  }

  /** Membership is history: after any run from the initial tables, `p` is a
      member of room `r` exactly when `p` has sent a message naming `r` and
      has not closed since. */
  lemma {:induction false} MemberIffHistory(events: seq<Event>, p: ConnId, r: RoomId)
    ensures IsMember(Run(Initial(), events), p, r) <==> JoinedSince(events, p, r)
  {
    if events != [] {
      var init := events[..|events| - 1];
      var before := Run(Initial(), init);
      MemberIffHistory(init, p, r);
      JoinedSinceLast(events, p, r);
      match events[|events| - 1]
      case Message(ws, msg, open) =>
        ReceiveMembership(before, ws, msg, open, p, r);
      case Closed(c) =>
        CloseMembership(before, c, p, r);
    }
  }
}
