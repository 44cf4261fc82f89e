# Voice-room signalling server, modelled in Dafny

This project models the stateful core of a small WebRTC voice-chat server (`server.js`).
The core has two independent parts.

- **The room registry and signalling relay.** A socket joins a named room. It exchanges
  offers, answers and ICE candidates with other sockets through the server, and it
  eventually disconnects. A room that empties is deleted after a grace period, but only
  if it is still empty then.
- **The account store** behind `POST /register` and `POST /login`. It is a map from
  e-mail address to `{name, email, password}`, with a plain-text password comparison.

Every handler is a pure function. For the socket handlers it returns the new registry
and a *delivery plan*: a sequence of `Delivery(to, event)` values. These stand for the
`emit` calls the handler makes through Socket.IO. The grace-period timer is not real
time. It is an explicit `GraceTimerFired(roomId)` input of the whole-server state
machine (`Server.Step`), and that machine keeps the multiset of timers still pending.

Modules:

- `Wrappers`: `Option`, `Result`, `Outcome`.
- `InsertionMap`: the JavaScript `Map` the server keeps its rooms and members in.
  Iteration follows insertion order. Overwriting a key keeps its place. Deleting a key
  drops it from the order. The plan's order (who is told first, in which order the
  newcomer hears of the others) follows that order.
- `Rooms`: the registry and the `join-room`, `offer`/`answer`/`ice-candidate` and
  `disconnect` handlers, plus the timer callback.
- `Server`: the registry together with pending timers, one `Step` per input, and the
  invariant that no room stays empty without a pending timer.
- `Accounts`: `/register` and `/login`.

Behaviour worth noting:

- There is no name-uniqueness, capacity or empty-input check on join. There is no
  same-room check on relay, no chat, no presence and no explicit leave.
- Joining a second room does not remove the socket from the first one. Re-joining the
  same room overwrites the socket's entry in place and announces the socket again.
- On join, the other members are told about the newcomer *before* the newcomer is told
  about them.
- An emptied room is not deleted at once. Its deletion is re-checked when its timer
  fires.
- The timer callback checks only that the room is empty, not which emptying armed the
  timer. After join, disconnect, join and a second disconnect, the first timer can delete
  a room that has been empty for seconds, although the log line calls it inactivity. The
  model keeps this: `Server.State.pending` can hold several timers for one room, and any
  of them may fire.
- `socket.to(x)` never delivers to the sending socket. So a signal a socket addresses to
  itself is dropped, and the model drops it too.
- Socket.IO's own room membership is identified with the registry's users map. Both gain
  a socket on `join-room` and lose it on disconnect, and the registry deletes only empty
  rooms. So the recipients of `socket.to(roomId)` are the registry members other than
  the sender.

## Model

| member | source | states |
|---|---|---|
| Rooms.JoinedUsers | server.js:65-79 | After a join, the room's users are its previous users, or none for a new room, plus `s` mapped to `{id: s, name}`. Every user stays filed under its own socket id. |
| Rooms.Join | server.js:61-81 | After a join, room `roomId` exists whether or not it did before. Its users map sends `s` to `{id: s, name}` and keeps every other entry. Every other room is unchanged, no room appears or disappears, and no timer is armed. |
| Rooms.Announce | server.js:84-87 | A broadcast delivers the event to exactly the listed sockets, and to each of them once when they are distinct. |
| Rooms.Introductions | server.js:90-98 | The newcomer is told about every listed user whose id differs from its own. It is told about nobody else, never about itself, and about each user once when ids are distinct. |
| Rooms.JoinPlanAnnounces | server.js:84-87 | Every other member of the joined room receives exactly one `user-connected` carrying the newcomer's id and name. |
| Rooms.JoinPlanIntroduces | server.js:90-98 | The newcomer receives exactly one `user-connected` for each other member, with that member's stored name. |
| Rooms.JoinPlanOnly | server.js:83-98 | A join sends nothing else. Each delivery is either an announcement to another member or an introduction to the newcomer of someone other than itself. |
| Rooms.JoinPlan | server.js:83-98 | The join plan, stated against the room as it was before the join: each pre-existing member hears of the newcomer exactly once, the newcomer hears of each of them exactly once, and nothing else is sent. |
| Rooms.Relay | server.js:104-123 | An offer, answer or ICE candidate leaves the registry unchanged and arms no timer. It produces one delivery, to the target, or none when the target is the sender. That delivery carries the kind's payload field verbatim (absent if the message lacked it) and `from` = the sender's real id. |
| Rooms.RelayIgnoresMembership | server.js:104-123 | The relay's output does not depend on the registry or on any message field other than the kind's payload field. So there is no room or membership check, and a client-supplied `from` is ignored. |
| Rooms.Evict | server.js:130-132 | Removing `s` from a room drops exactly `s` from its users, and leaves a room without `s` as it was. |
| Rooms.Disconnect | server.js:125-133 | A disconnect removes `s` from the users of every room and leaves all other users alone. Rooms without `s` are unchanged. No room is deleted, and the room order is kept. |
| Rooms.DisconnectNotifies | server.js:129-136 | Every delivery of a disconnect is `user-disconnected{userId: s}`, and none goes to `s`. A socket `m` receives exactly as many as the rooms it shared with `s`. So members of rooms `s` was not in receive nothing. |
| Rooms.DisconnectArmsTimers | server.js:140-148 | A disconnect arms one timer, without repeats, for exactly the rooms whose only member was `s`. Those rooms are still in the registry afterwards, and empty. |
| Rooms.EmptyAfterDisconnect | server.js:129-148 | After a disconnect, a room is empty only if it was already empty or its timer was just armed. |
| Rooms.DisconnectAbsent | server.js:129-130 | Disconnecting a socket that is in no room sends nothing, arms nothing and changes nothing. |
| Rooms.DisconnectIdempotent | server.js:125-151 | A second disconnect of the same socket sends nothing, arms nothing and leaves the registry unchanged. |
| Rooms.GraceExpired | server.js:142-147 | When a timer fires, the room is removed exactly when it is present and empty. Every other room keeps its presence and contents. |
| Rooms.ExpirySparesRejoined | server.js:143-144 | If someone joins after the room emptied, the timer leaves the registry, that room and its members untouched. |
| Rooms.ReclaimedRoomIsFresh | server.js:65-70 | After an empty room is reclaimed, joining its id again creates a room holding only the newcomer, and nobody is notified. |
| Server.Initial | server.js:22 | The server starts with no rooms and no pending timers, which satisfies the invariant. |
| Server.Step | server.js:58-151 | Every input keeps the registry well formed. A timer sends nothing. Joins and signals leave the pending timers alone. |
| Server.StepPreservesInv | server.js:141-147 | Every input preserves the invariant that each empty room in the registry has a pending timer. |
| Server.EmittedNames | server.js:84-136 | Each handler emits under a single Socket.IO event name: a join only `user-connected`, an `offer`, `answer` or `ice-candidate` only under the name it arrived under, a disconnect only `user-disconnected`. A timer emits nothing. |
| Server.Run | server.js:58-151 | Any sequence of inputs from a state satisfying the invariant ends in one satisfying it. |
| Server.DrainReclaims | server.js:142-147 | Firing all pending timers, in any order, leaves no timer and no empty room in the registry. |
| Accounts.Register | server.js:28-37 | A known e-mail is refused with `User already exists` and the store is unchanged. Otherwise the store gains exactly `{name, email, password}` under that e-mail and nothing else changes. Records stay filed under their own e-mail. |
| Accounts.Login | server.js:39-55 | An unknown e-mail fails with `User not found`. A password mismatch fails with `Invalid password`. A match returns only the stored name and e-mail, never the password. The store is only read. |
| Accounts.RegisterThenLogin | server.js:31-54 | After registering a new e-mail, a login succeeds exactly with the registered password and reports the registered name and e-mail. Any other password gets `Invalid password`. |
| Accounts.ReRegisterKeepsLogin | server.js:31-33 | A refused re-registration leaves every login answer as it was, so the first registrant keeps the e-mail. |
| Accounts.RegisterIsolated | server.js:35 | A registration leaves every other e-mail's login answers as they were. |

## Left out

- Framework and transport setup is not modelled: Express, HTTP, Socket.IO, CORS, JSON
  body parsing, static files and `server.listen` (server.js:1-19, server.js:154-157).
  The model starts at the handlers.
- `console.log` calls are not modelled. They have no effect on state or on deliveries.
- The `createdAt` and `joinedAt` timestamps are not modelled. Nothing reads them.
- The 300000 ms `setTimeout` is not modelled as real time. A pending timer may fire at
  any later step of `Server.Step`, even the step right after the disconnect that armed
  it, and timers need not fire in the order they were armed. This admits more orders than
  real time does, so the invariants hold a fortiori. What is lost is the five-minute
  lower bound between an emptying and its timer, and the arming order of timers.
- The transport guarantees are assumed, not restated. `disconnect` fires once per socket,
  no event arrives from a socket after it, and Socket.IO drops an emit to a closed socket.
- Socket ids and room ids are assumed to be separate namespaces. In Socket.IO each socket
  also sits in a room named by its own id. So a room id equal to a live socket's id would
  also reach that socket, and a relay `target` naming a room would reach the whole room.
  Neither is modelled.
- Request fields are modelled as strings: `roomId`, `userName`, `target`, `email`,
  `password` and the payload blob. Missing or non-string JSON values are not modelled,
  except for a missing signal payload field, which becomes `None`.
- HTTP success bodies are reduced to `Pass` / `Ok(user)`. The messages
  `User created successfully` and `Login successful` are not modelled. The three error
  texts are modelled by `Accounts.ErrorText`.
- `public/script.js` is not part of this model. It is browser DOM, media capture and
  `RTCPeerConnection` code. It also listens for and emits event names the server does not
  use (`users-in-room`, `webrtc-offer`, `send-chat-message`, `audio-start`), so no
  client–server round trip can be stated consistently.
