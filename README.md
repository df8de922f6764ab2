# Room relay of a WebRTC signaling server, in Dafny

The server relays WebRTC session-negotiation messages between WebSocket
connections that name the same room. It keeps two tables: `rooms`, from room
id to the set of member connections, and `lastOffers`, from room id to the
last `offer` payload seen in that room, so that a peer that joins late is
sent the offer. It has two event handlers. The `message` handler adds the
sender to the named room, caches offers, and forwards the message to the
room's other members (a `disconnect` instead goes to every member). The
`close` handler removes a connection from every room and deletes the rooms
it leaves empty, together with their cached offer.

This project models those two handlers on those two tables and proves what
each event does to the tables and which frames each connection is sent.

- `messages.dfy` (module `Messages`): connection ids, the decoded inbound
  record, the outgoing frames, one `send` as a `Send(to, frame)` value, and
  `SentTo`, the frames one connection receives from a log of sends.
- `members.dfy` (module `Members`): a room's member set. A JavaScript `Set`
  keeps each element once and iterates in insertion order, so it is a
  duplicate-free sequence. `Add` is `Set.add` and `Remove` is `Set.delete`.
- `rooms.dfy` (module `Rooms`): the two tables as a value, the invariant,
  and each handler as a function of the tables before the event: `Receive`
  for `message`, `Close` for `close`, with `FanOut` for the `forEach` send
  loops. The lemmas there state the delivery properties.
- `server.dfy` (module `Server`): class `Relay` holds the two maps and an
  outbox as fields. `OnMessage` and `OnClose` update them in place with the
  handlers' loops, and are proved to follow `Receive` and `Close` exactly.
- `lifecycle.dfy` (module `Lifecycle`): properties over several events. The
  invariant holds over any run. A connection is a member of a room exactly
  when it has sent a message naming the room and has not closed since. A
  late joiner gets the cached offer. A room whose last member closed keeps
  no offer.

The model follows `server.js` as written. In particular, it differs from
what a signaling relay is often described as doing:
- there is no cache of `answer` payloads;
- a `join` is forwarded to the other members like any other type, before the
  offer reply;
- forwarded frames are `{type, payload}`, without `room`;
- the `disconnect` fan-out has no sender check, so the sender is notified as
  well if it is open.

Abstractions:
- A socket is a connection id (`nat`).
- `readyState === OPEN` is membership in the `open` set passed to
  `OnMessage`: the state of every connection while the handler runs.
- `peer.send(JSON.stringify(x))` appends `Send(peer, x)` to the outbox.
- `JSON.parse` is replaced by the `Decoded` value. `Unparseable` stands for
  any frame whose decoding or destructuring throws (the `catch` swallows it).
  A `room` of `None` or `Some("")` is falsy.

## Model

| member | source | states |
|---|---|---|
| `Members.Add` | server.js:29 | `Set.add`: the result holds the old members plus the sender and nothing else; no duplicates arise; the old iteration order is a prefix of the new one; adding a present member changes nothing |
| `Members.Remove` | server.js:67 | `Set.delete`: the result holds the old members minus `c`; no duplicates arise; removing an absent member changes nothing; the result is empty exactly when `c` was the only member |
| `Members.RemoveCutsOut` | server.js:67 | over a duplicate-free member sequence containing `c`, `Set.delete` cuts out the one occurrence of `c`, so every other member keeps its place in the iteration order |
| `Rooms.Initial` | server.js:18-19 | the tables start as two empty maps, which satisfy the invariant |
| `Rooms.Admit` | server.js:28-34 | for a truthy room R: R exists afterwards and no room is added besides; R's members are the old ones plus the sender; no other room's members change; an `offer` stores its payload as R's offer and leaves every other offer alone; any other type leaves `lastOffers` unchanged |
| `Rooms.Receive` | server.js:22-63 | a frame that fails to decode, or whose room is absent or "", leaves both tables unchanged and sends nothing; any other frame updates the tables as `Admit` does |
| `Rooms.FanOut` | server.js:36-53 | a `forEach` send loop sends no more frames than there are positions in the member sequence, and each frame goes to an open member that is not excluded (exactly one per member: `Rooms.FanOutDelivers`) |
| `Rooms.FanOutDelivers` | server.js:49-53 | over a duplicate-free member set, every open, non-excluded member receives exactly one copy of the frame and every other connection receives nothing |
| `Rooms.DisconnectNotifiesOpenMembers` | server.js:36-43 | a `disconnect` in R sends exactly one `{type:"disconnect"}` to each open member of R, the sender included, and nothing else to anyone: no broadcast and no offer reply |
| `Rooms.BroadcastReachesOpenPeers` | server.js:47-53 | any other type sends each open member of R except the sender exactly one `{type, payload}` frame (no `room`); a closed member or a non-member receives nothing |
| `Rooms.JoinReplaysCachedOffer` | server.js:55-59 | for any type but `disconnect`, the sender receives exactly `{type:"offer", payload: lastOffers[R]}` when the type is `join` and R had a cached offer, and that frame is the event's last send; in every other case the sender receives nothing |
| `Rooms.ReceiveJoinIdempotent` | server.js:28-29 | a second message from the same connection naming the same room leaves `rooms` as the first left it (set semantics) |
| `Rooms.AdmitKeepsValid` | server.js:28-33 | the `message` handler keeps the invariant: member sets non-empty and duplicate-free, every `lastOffers` key a `rooms` key |
| `Rooms.Close` | server.js:65-73 | after `close` of `c`: `c` is in no room; a room is removed exactly when `c` was its only member; surviving rooms keep their other members (rooms without `c` are unchanged) and their cached offer; a removed room's offer is removed too; no room or offer is added |
| `Rooms.CloseInStep` | server.js:66-71 | one iteration of the `for...of` loop over a room not yet visited: it deletes `c` from that room and removes the room from both maps if it is now empty |
| `Rooms.CloseKeepsValid` | server.js:66-71 | the `close` handler keeps the invariant |
| `Server.Relay.constructor` | server.js:18-19 | the relay starts with empty tables, an empty outbox, and the invariant holding |
| `Server.Relay.SendEach` | server.js:49-53 | the send loop appends exactly `FanOut(peers, open, except, frame)` to the outbox |
| `Server.Relay.Enter` | server.js:28-34 | updating the room and offer maps in place leaves exactly the tables `Admit` describes |
| `Server.Relay.OnMessage` | server.js:22-63 | the in-place `message` handler leaves exactly the tables of `Receive`, appends exactly its sends to the outbox, and keeps the invariant |
| `Server.Relay.OnClose` | server.js:65-73 | the in-place `close` handler leaves exactly the tables of `Close`, does not touch the outbox, and keeps the invariant |
| `Lifecycle.RunKeepsValid` | server.js:21-73 | starting from tables that satisfy the invariant, any sequence of message and close events keeps it |
| `Lifecycle.ReceiveMembership` | server.js:26-29 | after a message, `p` is a member of `r` exactly when it was already, or it sent this message and the message names `r` |
| `Lifecycle.CloseMembership` | server.js:65-67 | after a close of `c`, `p` is a member of `r` exactly when it was already and `p` is not `c` |
| `Lifecycle.JoinedSinceLast` | server.js:21-73 | having sent a message naming `r` with no close since holds for a run exactly when the last event is not a close of `p` and either the last event is such a message or the condition already held before it |
| `Lifecycle.MemberIffHistory` | server.js:21-73 | after any run from the initial tables, `p` is in room `r` exactly when some message from `p` named `r` and `p` has not closed since |
| `Lifecycle.LateJoinerReceivesOffer` | server.js:32-59 | if `a` sends an offer in R and then `b`, not yet in R, sends `join` in R, then over both events `b` receives exactly one frame: that offer |
| `Lifecycle.EmptiedRoomForgetsOffer` | server.js:65-73 | after the last member of R closes, R and its offer are gone, and a later `join` in R sends nothing; the joiner is then R's only member and R has no offer |

## Left out

- Express static-file serving, the HTTP server, `listen` and `PORT`
  (server.js:4-14, 76-77): I/O plumbing with no relay logic.
- The `ws` library: the `connection` event, socket objects, how
  `readyState` changes, and sending frames. These appear only as
  connection ids, the `open` set and the outbox.
- `JSON.parse`, `JSON.stringify` and `console.error`: messages come
  already decoded, and outgoing frames are datatype values. A `room` that
  is truthy but not a string, such as a number or an object, is not
  modelled. Neither is a `type` that is absent or not a string: `type` is a
  string here.
- A `send` that throws partway through a fan-out, so that the `catch`
  skips the rest: this depends on library behaviour the model cannot see.
- The order in which the `close` handler visits rooms is left open (any
  order). The resulting tables do not depend on it, and the handler sends
  nothing.
- Concurrency: under Node's event loop each handler runs to completion, so
  each event is one atomic call.
- `public/service-worker.js`: browser service-worker lifecycle hooks and an
  empty timer, with no relay logic.
