# Signalling relay: room table and router

This project models the signalling relay of a browser video-call system.
It proves properties of that model. The relay is one Node.js file,
`server/server.js`. It keeps a `rooms` Map from a room id to the Set of
connection ids that joined the room. It serves these socket events:

- `join-room`;
- `leave-room`;
- `offer`, `answer` and `ice-candidate`, which it relays without looking
  at them;
- `disconnect`.

It also answers two read-only HTTP queries, `/health` and `/rooms`.

How the model is built:

- **Insertion order.** JavaScript's Map and Set remember the order in
  which entries were added. That order decides three things: the order of
  the `room-participants` list, the order of the `/rooms` listing, and
  the order in which a disconnect sends its notices. Module `OrderedSets`
  therefore models a Set as a sequence without repeats. `Insert` is
  `Set.add`. `Without` is both `Set.delete` and the `filter` that removes
  the joiner.
- **The table as a value.** Module `Rooms` models the Map as a datatype
  `RoomTable`. It holds the keys in Map order and each room's member
  sequence. `Join`, `Leave` and `LeaveAll` are functions that say what each
  handler does to the table. The lemmas about them prove the table's
  invariant: no empty room is kept, keys appear once, and members appear
  once.
- **The running server.** Module `Signaling` models the server as a class
  `SignalingServer`. It has four fields:
  - the Map's keys;
  - the room contents;
  - the set of live connections;
  - an outbox holding one entry per `emit` call. An entry records the
    event and the set of connections it reaches.

  Each handler is a method. It changes these fields in the order the
  JavaScript does. Its postcondition ties the new table to `Join`, `Leave`
  or `LeaveAll` of the old one, and it gives the exact entries appended to
  the outbox. `disconnect` is a `while` loop over the keys the Map had when
  the loop started. Its invariant says the table is `LeaveAll` over the
  first `i` keys. It also says the outbox has grown by the `Departures`
  notices for the rooms among those first `i` keys that held s, in key
  order.
- **Who an emit reaches.** `socket.to(x)` reaches socket.io's room `x`.
  That room holds the connections that joined `x`. It also holds the live
  connection whose own id is `x`, because socket.io puts every socket into
  a room named by its id. `Audience` states this. socket.io leaves out
  the sender and everyone in the sender's own id-room, so a connection
  that joined a room named by the sender's id hears none of the sender's
  broadcasts. `Recipients` states this. Room ids and connection ids are
  both strings in one namespace.
- **The HTTP queries.** Module `Status` models `/health` and `/rooms` as
  pure functions of the table.

Two behaviours of the code that one might not expect:

- **`leave-room` for a room the sender is not in.** One might expect a
  no-op. The code still sends `user-left` to the room's members when the
  room exists. `LeaveRoom` records that message.
- **Relay targets.** A relay's target is passed to `socket.to`. So a target
  that names a room reaches that room's members, not one connection (see
  `Signaling.RelayDelivery` below).

## Model

| member | source | states |
|---|---|---|
| OrderedSets.Insert | server/server.js:46 | `Set.add`: the element set grows by exactly the new element. The result stays free of repeats. Existing entries keep their places, and an element already present changes nothing. |
| OrderedSets.Without | server/server.js:87 | `Set.delete` (and the `filter` on line 55): exactly the element is gone, and the result stays free of repeats. An absent element changes nothing. A present element shortens the sequence by exactly one. |
| OrderedSets.WithoutOrder | server/server.js:55 | After the `filter` (or a `Set.delete`), any two remaining elements appear in the same relative order as before. |
| OrderedSets.WithoutAppend | server/server.js:55 | The `filter` applied to two sequences joined together equals the two filtered sequences joined together. |
| OrderedSets.WithoutEmpty | server/server.js:90 | After the delete, a non-empty room has size 0 exactly when the deleted connection was its only member. |
| OrderedSets.DistinctSize | server/server.js:134 | A Set's `size` is the length of its repeat-free sequence. |
| Rooms.RoomTable.Containing | server/server.js:106-107 | A room is in the list of rooms holding s exactly when it is one of the walked keys and holds s. Walking distinct keys gives a list without repeats. |
| Rooms.ContainingOrder | server/server.js:106-107 | The rooms holding s are listed in the order of the walked keys, which is the Map's order. |
| Rooms.JoinEffect | server/server.js:41-46 | `join-room`: the invariant is preserved. r is in the table with s in it, and r's member set is its old set plus s. An unknown r becomes the last key. No other room changes. Joining a room s is already in leaves the table as it was. |
| Rooms.JoinReply | server/server.js:55-56 | The `room-participants` list never holds the joiner and has no repeats. Its elements are the room after the join minus the joiner. For a new room it is empty. For a new member it is exactly the room as it was before, in join order. |
| Rooms.LeaveEffect | server/server.js:85-92 | `leave-room`: the invariant is preserved, and an unknown room leaves the table unchanged. Otherwise s is gone from r. r is deleted exactly when s was its only member, and no other room changes. |
| Rooms.LeaveAllEffect | server/server.js:106-116 | Walking any set of distinct rooms takes s out of each one and deletes exactly those it empties. Every room outside the walk stays as it was, and the invariant is preserved. |
| Rooms.LeaveAllStep | server/server.js:106-116 | At each step of the disconnect walk, the room visited is still as it was at the start. The walk's table and its list of rooms holding s each grow by that room alone. |
| Rooms.DisconnectEffect | server/server.js:106-116 | After a disconnect, s is in no room and the invariant holds. Rooms without s are untouched. A room that held s keeps its other members and is deleted exactly when s was its only member. |
| Rooms.ContainingCount | server/server.js:106-109 | The walk finds as many rooms holding s as there are such rooms. |
| Rooms.JoinEachOrder | server/server.js:41-46 | Distinct connections joining a new room, one after another, leave it holding exactly those connections in the order they joined. The invariant holds throughout. |
| Rooms.JoinEachReplies | server/server.js:55-56 | In such a run, the i-th joiner is told exactly the connections that joined before it, in order. |
| Signaling.Departures | server/server.js:106-116 | A disconnect sends one notice for each room holding s. |
| Signaling.LeaveOwnRoom | server/server.js:87-92 | s leaving any room leaves unchanged which other connections share s's own id-room. |
| Signaling.WalkOwnRoom | server/server.js:106-116 | At every step of the disconnect walk, the other connections sharing s's id-room are those it had at the start. |
| Signaling.RelayDelivery | server/server.js:60-79 | A relay never reaches its sender or anyone sharing the sender's id-room. It reaches at most the target and the members of a room with that name. When no room has that name, it reaches the target exactly when the target is live, is not the sender and is not in the sender's id-room; otherwise it reaches nobody. When no room is named like the sender either, the id-room condition drops out. |
| Signaling.JoinNotification | server/server.js:52 | `user-joined(s)` reaches exactly the room's other members, plus a live connection whose id is the room's name, minus anyone sharing s's id-room. It never reaches s. When no room is named like s, it reaches exactly the room's other members and that live connection. |
| Signaling.DepartureAt | server/server.js:109 | The i-th disconnect notice is `user-left(s)` for the i-th room holding s, sent to that room as it is once s has left. |
| Signaling.LeftRoomRecipients | server/server.js:95 | `user-left(s)` after a leave reaches exactly the room's members other than s, plus a live connection whose id is the room's name, minus anyone sharing s's id-room. When no room is named like s, nobody is left out. |
| Signaling.EmitBeforeDelete | server/server.js:108-114 | The disconnect notice is sent before an emptied room is deleted. It reaches the same connections it would reach after the deletion. |
| Signaling.WalkStep | server/server.js:106-116 | One room of the disconnect loop, stated on the walk's current table. If the room holds s, the next table is that room left by s and one notice to it is added. Otherwise nothing changes. |
| Signaling.NoticeStep | server/server.js:107-109 | The notices grow by one exactly for a room holding s. The notice goes to that room as it is after s left, whichever table the walk has reached, as long as that table still puts the same connections in s's id-room. |
| Signaling.SameRoomLeft | server/server.js:109 | Who hears that s left room r depends only on room r and on who else shares s's id-room. |
| Signaling.WalkAdvanceTable | server/server.js:106-116 | The loop invariant on the table survives one room. |
| Signaling.WalkAdvanceNotices | server/server.js:106-116 | The loop invariant on the outbox survives one room. |
| Signaling.DisconnectNotices | server/server.js:106-116 | A disconnect sends exactly one `user-left(s)` per room that held s, as many as there are such rooms, in the order `Containing` lists them. Each goes to `Recipients` of that room once s has left it, which never includes s. |
| Signaling.SignalingServer.constructor | server/server.js:30 | The server starts with an empty Map, no connections and nothing sent. |
| Signaling.SignalingServer.Connect | server/server.js:33 | A new connection becomes live, and the table and outbox are unchanged. |
| Signaling.SignalingServer.EmitTo | server/server.js:52 | `socket.to(x).emit(e)` appends one entry: `e` sent to `Recipients` of `x`. |
| Signaling.SignalingServer.AddMember | server/server.js:41-46 | Creating the room if needed and adding s leaves the table equal to `Join` of the old table. The invariant and "members are live" are preserved. |
| Signaling.SignalingServer.JoinRoom | server/server.js:37-57 | The new table is `Join` of the old one, and s is in r. Two entries are sent: `user-joined(s)` to `Recipients` of the room, then `room-participants` with the room minus s, to s alone. |
| Signaling.SignalingServer.LeaveRoom | server/server.js:82-99 | The new table is `Leave` of the old one. `user-left(s)` goes to the room as it is afterwards exactly when the room was known, and nothing is sent otherwise. The invariant is preserved. |
| Signaling.SignalingServer.Relay | server/server.js:60-79 | The table and connections are unchanged. One entry is appended: the payload unchanged, its kind and `from` = sender, sent to `Recipients` of the target. |
| Signaling.SignalingServer.DepartRoom | server/server.js:107-115 | The body of the disconnect loop for room r. If r holds s, the table becomes `Leave` of r and one `user-left(s)` goes to r as it is after s left. Otherwise nothing changes. |
| Signaling.SignalingServer.Disconnect | server/server.js:102-117 | s is no longer live. The new table is `LeaveAll` over the Map's keys, and the outbox grows by exactly `Departures`. The invariant is preserved. |
| Status.TableSizes | server/server.js:124 | The Map's `size` is its number of keys. Each room's `size` is its number of members. |
| Status.Listing | server/server.js:130-138 | `/rooms` gives one entry per room, in the Map's key order, with no room listed twice and every room listed. Each entry's `participantCount` is the room's Set size, which is never 0. |
| Status.Health | server/server.js:121-127 | `/health` reports status "OK" and the transport's connection count. `activeRooms` is the number of keys, which equals the length of the `/rooms` listing. It is 0 exactly when the table is empty. |

## Left out

- Express setup, CORS, JSON middleware, `server.listen` and console
  logging (server/server.js:1-27, 34, 48-49, 98, 103, 140-146) are I/O and
  are not modelled.
- socket.io's own room bookkeeping (`socket.join`, `socket.leave`, lines
  38 and 83) is not modelled on its own. Its rooms are taken to be the
  table's rooms plus each live connection's room named by its id.
- `leave-room` naming the sender's own connection id: socket.io would take
  the sender out of its own id-room, and later messages addressed to that
  id would no longer reach it. The model keeps every live connection in its
  id-room.
- `io.engine.clientsCount` (line 125) is a parameter of `Status.Health`.
- Malformed messages (a room id that is not a string, an `offer` without a
  `target`) are not modelled. Every message is taken to be well formed.
- Delivery itself is not modelled. This covers transport failures, what a
  client does with a message, and the order in which one recipient
  receives messages. The outbox records each `emit` call and the set of
  connections it addresses.
- Concurrency is not modelled. Each handler runs to completion on Node's
  single event loop and is modelled as one sequential step.
- The Set of each room is modelled as a sequence without repeats, and the
  Map as a key sequence plus a map. Object identity of the Set values is
  not modelled. Nothing outside the handlers holds a reference to them.
- Signaling.RelayDelivery: states only that a relay reaches at most the
  target and the members of a room named like the target. The code passes
  the target to `socket.to`, which addresses a room of that name when there
  is one. "Delivered only to the target" therefore holds only when no room
  has the target's name, and the lemma proves it for that case. Even then
  the target is left out when it shares the sender's id-room.
- The client files (`client/src/App.js`, `client/src/components/*.js`) are
  user interface and browser WebRTC code and are not part of this model.
