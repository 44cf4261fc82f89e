/** The room registry of the signalling server and the four things that happen to it:
    a socket joins a room, a socket relays an offer/answer/ICE candidate to another
    socket, a socket disconnects, and an emptied room's grace timer fires.

    Every operation is a pure transition: it returns the new registry together with a
    delivery plan, the list of (recipient, event) pairs the server hands to Socket.IO,
    and the rooms whose deletion timer it armed. The recipients of `socket.to(roomId)`
    are the members of the registry room `roomId` other than the sender: Socket.IO's
    own room membership gains a socket exactly when the registry does (`join-room`) and
    loses it exactly when the registry does (on disconnect). */
module Rooms {
  import opened Wrappers
  import opened InsertionMap

  type SocketId = string
  type RoomId = string

  /** A signalling payload as the client serialised it; the server never looks inside. */
  type Blob = string

  /** A room member. The join timestamp is not modelled. */
  datatype User = User(id: SocketId, name: string)

  /** A room: its users keyed by socket id. The creation timestamp is not modelled. */
  datatype Room = Room(users: IMap<SocketId, User>)

  /** The process-wide `rooms` map. */
  type Registry = IMap<RoomId, Room>

  /** Every user is filed under its own socket id. */
  ghost predicate RoomValid(room: Room) {
    && room.users.Valid()
    && forall k :: k in room.users.entries ==> room.users.entries[k].id == k
  }

  ghost predicate RegistryValid(reg: Registry) {
    && reg.Valid()
    && forall id :: id in reg.entries ==> RoomValid(reg.entries[id])
  }

  /** The users of room `roomId`, or none if the room does not exist. */
  function MembersOf(reg: Registry, roomId: RoomId): map<SocketId, User> {
    if roomId in reg.entries then reg.entries[roomId].users.entries else map[]
  }

  /** The three signalling messages the server relays. */
  datatype SignalKind = Offer | Answer | IceCandidate

  /** The Socket.IO event name a signal is received and re-emitted under. */
  function SignalEvent(kind: SignalKind): string {
    match kind
    case Offer => "offer"
    case Answer => "answer"
    case IceCandidate => "ice-candidate"
  }

  /** The field of the client's message that carries the payload of a signal. */
  function PayloadField(kind: SignalKind): string {
    match kind
    case Offer => "offer"
    case Answer => "answer"
    case IceCandidate => "candidate"
  }

  /** The events the server emits. A signal's payload is `None` when the client's
      message lacked the field (JavaScript `undefined`, which JSON drops). */
  datatype Event =
    | UserConnected(userId: SocketId, userName: string)
    | UserDisconnected(userId: SocketId)
    | Signal(kind: SignalKind, payload: Option<Blob>, from: SocketId)

  /** The Socket.IO event name of an emitted event. */
  function EventName(ev: Event): string {
    match ev
    case UserConnected(_, _) => "user-connected"
    case UserDisconnected(_) => "user-disconnected"
    case Signal(kind, _, _) => SignalEvent(kind)
  }

  /** One `emit` to one socket. */
  datatype Delivery = Delivery(to: SocketId, event: Event)

  /** The result of an operation: the new registry, what to send, and the rooms whose
      deletion timer was armed. */
  datatype Transition = Transition(registry: Registry, plan: seq<Delivery>, timers: seq<RoomId>)

  /** `socket.to(room).emit(ev)`: one delivery of `ev` to each target, in order. */
  function Announce(targets: seq<SocketId>, ev: Event): (r: seq<Delivery>)
    ensures forall d :: d in r <==> d.to in targets && d.event == ev
    ensures Distinct(targets) ==> Distinct(r)
  {
    if targets == [] then []
    else
      var rest := Announce(targets[1..], ev);
      assert Distinct(targets) ==> Distinct([Delivery(targets[0], ev)] + rest) by {
        if Distinct(targets) {
          assert targets[0] !in targets[1..];
          DistinctConcat([Delivery(targets[0], ev)], rest);
        }
      }
      [Delivery(targets[0], ev)] + rest
  }

  /** True iff no two users of `members` share a socket id. */
  ghost predicate DistinctIds(members: seq<User>) {
    forall i, j :: 0 <= i < j < |members| ==> members[i].id != members[j].id
  }

  /** The users of `members` other than `s`, each announced to `s` as a
      `user-connected`, in order. */
  function Introductions(s: SocketId, members: seq<User>): (r: seq<Delivery>)
    ensures forall d :: d in r ==>
      && d.to == s && d.event.UserConnected? && d.event.userId != s
      && User(d.event.userId, d.event.userName) in members
    ensures forall u :: u in members && u.id != s ==> Delivery(s, UserConnected(u.id, u.name)) in r
    ensures DistinctIds(members) ==> Distinct(r)
  {
    if members == [] then []
    else
      var u := members[0];
      var rest := Introductions(s, members[1..]);
      var head := if u.id != s then [Delivery(s, UserConnected(u.id, u.name))] else [];
      assert DistinctIds(members) ==> Distinct(head + rest) by {
        if DistinctIds(members) {
          assert DistinctIds(members[1..]);
          forall d | d in rest ensures d.event.userId != u.id {
            var v := User(d.event.userId, d.event.userName);
            var k :| 0 <= k < |members[1..]| && members[1..][k] == v;
            assert members[k + 1] == v;
          }
          DistinctConcat(head, rest);
        }
      }
      head + rest
  }

  // ---------------------------------------------------------------------------
  // join-room
  // ---------------------------------------------------------------------------

  /** The notifications of `join-room` once `s` is filed in `users`: the other members
      hear of `s` (`socket.to(roomId)`), then `s` hears of every user but itself. */
  function JoinPlanOf(users: IMap<SocketId, User>, s: SocketId, userName: string): seq<Delivery>
    requires users.Valid()
  {
    Announce(Remove(users.keys, s), UserConnected(s, userName))
    + Introductions(s, users.Values())
  }

  /** The users of room `roomId` once `s` is filed there under `userName`: a room that
      does not exist yet starts out as `new Map()`. */
  function JoinedUsers(reg: Registry, s: SocketId, roomId: RoomId, userName: string): (users: IMap<SocketId, User>)
    requires RegistryValid(reg)
    ensures RoomValid(Room(users))
    ensures users.entries == MembersOf(reg, roomId)[s := User(s, userName)]
  {
    var room := if roomId in reg.entries then reg.entries[roomId] else Room(Empty());
    assert RoomValid(room);
    room.users.Set(s, User(s, userName))
  }

  /** `join-room`: create the room if its id is new, file the user under its socket id
      (overwriting an earlier entry of the same socket in place), then tell the other
      members about the newcomer and the newcomer about every other member. No name,
      capacity or input check is made, and membership of other rooms is kept. */
  function Join(reg: Registry, s: SocketId, roomId: RoomId, userName: string): (r: Transition)
    requires RegistryValid(reg)
    ensures RegistryValid(r.registry)
    ensures roomId in r.registry.entries
    ensures r.registry.entries[roomId].users.entries == MembersOf(reg, roomId)[s := User(s, userName)]
    ensures forall id :: id != roomId ==> (id in r.registry.entries <==> id in reg.entries)
    ensures forall id :: id in reg.entries && id != roomId ==> r.registry.entries[id] == reg.entries[id]
    ensures r.timers == []
  {
    var users := JoinedUsers(reg, s, roomId, userName);
    var reg' := reg.Set(roomId, Room(users));
    assert forall id :: id in reg'.entries ==> RoomValid(reg'.entries[id]);
    Transition(reg', JoinPlanOf(users, s, userName), [])
  }

  /** The values of a valid room are its users, each carrying its own key as id. */
  lemma ValuesAreUsers(users: IMap<SocketId, User>)
    requires RoomValid(Room(users))
    ensures DistinctIds(users.Values())
    ensures forall u :: u in users.Values() ==> u.id in users.entries && users.entries[u.id] == u
    ensures forall k :: k in users.entries ==> users.entries[k] in users.Values()
  {
    var vals := users.Values();
    forall i | 0 <= i < |vals| ensures vals[i].id == users.keys[i] {
      assert users.keys[i] in users.entries;
    }
    forall k | k in users.entries ensures users.entries[k] in vals {
      var i :| 0 <= i < |users.keys| && users.keys[i] == k;
      assert vals[i] == users.entries[k];
    }
  }

  /** Each member of `members` other than `s` receives exactly one `user-connected` for `s`. */
  ghost predicate AnnouncedOnce(plan: seq<Delivery>, members: map<SocketId, User>, s: SocketId, userName: string) {
    forall m :: m in members && m != s ==> multiset(plan)[Delivery(m, UserConnected(s, userName))] == 1
  }

  /** `s` receives exactly one `user-connected` for each member of `members` other than itself. */
  ghost predicate IntroducedOnce(plan: seq<Delivery>, members: map<SocketId, User>, s: SocketId) {
    forall m :: m in members && m != s ==> multiset(plan)[Delivery(s, UserConnected(m, members[m].name))] == 1
  }

  /** Every delivery of `plan` is one of those two kinds: nobody else is addressed and `s`
      never hears of itself. */
  ghost predicate OnlyWelcomes(plan: seq<Delivery>, members: map<SocketId, User>, s: SocketId, userName: string) {
    forall d :: d in plan ==>
      || (d.to in members && d.to != s && d.event == UserConnected(s, userName))
      || (&& d.to == s && d.event.UserConnected? && d.event.userId in members
          && d.event.userId != s && d.event.userName == members[d.event.userId].name)
  }

  /** The notifications a join of `s` under `userName` owes the room's other members
      `members`, and nothing more. */
  ghost predicate Welcomes(plan: seq<Delivery>, members: map<SocketId, User>, s: SocketId, userName: string) {
    && AnnouncedOnce(plan, members, s, userName)
    && IntroducedOnce(plan, members, s)
    && OnlyWelcomes(plan, members, s, userName)
  }

  lemma JoinPlanDistinct(users: IMap<SocketId, User>, s: SocketId, userName: string)
    requires RoomValid(Room(users))
    ensures Distinct(JoinPlanOf(users, s, userName))
  {
    var announce := Announce(Remove(users.keys, s), UserConnected(s, userName));
    var intro := Introductions(s, users.Values());
    ValuesAreUsers(users);
    forall d | d in announce ensures d !in intro {}
    DistinctConcat(announce, intro);
  }

  lemma JoinPlanAnnounces(users: IMap<SocketId, User>, s: SocketId, userName: string)
    requires RoomValid(Room(users))
    ensures AnnouncedOnce(JoinPlanOf(users, s, userName), users.entries, s, userName)
  {
    var plan := JoinPlanOf(users, s, userName);
    JoinPlanDistinct(users, s, userName);
    forall m | m in users.entries && m != s
      ensures multiset(plan)[Delivery(m, UserConnected(s, userName))] == 1
    {
      DistinctMultiplicity(plan, Delivery(m, UserConnected(s, userName)));
    }
  }

  lemma JoinPlanIntroduces(users: IMap<SocketId, User>, s: SocketId, userName: string)
    requires RoomValid(Room(users))
    ensures IntroducedOnce(JoinPlanOf(users, s, userName), users.entries, s)
  {
    var plan := JoinPlanOf(users, s, userName);
    JoinPlanDistinct(users, s, userName);
    ValuesAreUsers(users);
    forall m | m in users.entries && m != s
      ensures multiset(plan)[Delivery(s, UserConnected(m, users.entries[m].name))] == 1
    {
      var u := users.entries[m];
      assert u in users.Values() && u.id == m;
      DistinctMultiplicity(plan, Delivery(s, UserConnected(m, u.name)));
    }
  }

  lemma JoinPlanOnly(users: IMap<SocketId, User>, s: SocketId, userName: string)
    requires RoomValid(Room(users))
    ensures OnlyWelcomes(JoinPlanOf(users, s, userName), users.entries, s, userName)
  {
    ValuesAreUsers(users);
  }

  lemma JoinPlanOfSpec(users: IMap<SocketId, User>, s: SocketId, userName: string)
    requires RoomValid(Room(users))
    ensures Welcomes(JoinPlanOf(users, s, userName), users.entries, s, userName)
  {
    JoinPlanAnnounces(users, s, userName);
    JoinPlanIntroduces(users, s, userName);
    JoinPlanOnly(users, s, userName);
  }

  /** `Welcomes` only looks at the members other than the newcomer. */
  lemma WelcomesOthersOnly(plan: seq<Delivery>, a: map<SocketId, User>, b: map<SocketId, User>,
                           s: SocketId, userName: string)
    requires forall m :: m != s ==> (m in a <==> m in b)
    requires forall m :: m != s && m in a ==> a[m] == b[m]
    requires Welcomes(plan, a, s, userName)
    ensures Welcomes(plan, b, s, userName)
  {
  }

  /** The delivery plan of `join-room`: each member already in the room receives exactly
      one `user-connected` for the newcomer, the newcomer receives exactly one
      `user-connected` for each of them, and nothing else is sent. */
  lemma JoinPlan(reg: Registry, s: SocketId, roomId: RoomId, userName: string)
    requires RegistryValid(reg)
    ensures Welcomes(Join(reg, s, roomId, userName).plan, MembersOf(reg, roomId), s, userName)
  {
    var users := JoinedUsers(reg, s, roomId, userName);
    JoinPlanOfSpec(users, s, userName);
    WelcomesOthersOnly(JoinPlanOf(users, s, userName), users.entries, MembersOf(reg, roomId), s, userName);
  }

  // ---------------------------------------------------------------------------
  // offer / answer / ice-candidate
  // ---------------------------------------------------------------------------

  /** JavaScript property access on the client's message object. */
  function Field(data: map<string, Blob>, name: string): Option<Blob> {
    if name in data then Some(data[name]) else None
  }

  /** A signalling message from `s`: forwarded to `target` with the kind's payload field
      passed through untouched and tagged with the sender's real socket id. The server
      checks neither that `s` joined a room nor that `target` shares it. `socket.to`
      never delivers to the sender itself, so a signal addressed to oneself is dropped. */
  function Relay(reg: Registry, s: SocketId, kind: SignalKind, target: SocketId,
                 data: map<string, Blob>): (r: Transition)
    ensures r.registry == reg && r.timers == []
    ensures |r.plan| == if target == s then 0 else 1
    ensures forall d :: d in r.plan ==>
      && d.to == target
      && d.event == Signal(kind, Field(data, PayloadField(kind)), s)
  {
    var plan := if target == s then [] else [Delivery(target, Signal(kind, Field(data, PayloadField(kind)), s))];
    Transition(reg, plan, [])
  }

  /** Relaying consults neither the registry nor any field of the message other than the
      kind's payload field: a sender outside every room, a target in another room, or a
      forged `from` field in the message changes nothing. */
  lemma RelayIgnoresMembership(reg1: Registry, reg2: Registry, s: SocketId, kind: SignalKind,
                               target: SocketId, data1: map<string, Blob>, data2: map<string, Blob>)
    requires Field(data1, PayloadField(kind)) == Field(data2, PayloadField(kind))
    ensures Relay(reg1, s, kind, target, data1).plan == Relay(reg2, s, kind, target, data2).plan
  {
  }

  // ---------------------------------------------------------------------------
  // disconnect
  // ---------------------------------------------------------------------------

  /** Room `room` with socket `s` taken out of its users, if it was there. */
  function Evict(room: Room, s: SocketId): (r: Room)
    requires RoomValid(room)
    ensures RoomValid(r)
    ensures r.users.entries == room.users.entries - {s}
    ensures s !in room.users.entries ==> r == room
  {
    if s in room.users.entries then Room(room.users.Delete(s)) else room
  }

  /** The `user-disconnected` notices for the rooms `ids`, visited in order. */
  function Notices(reg: Registry, ids: seq<RoomId>, s: SocketId): seq<Delivery>
    requires RegistryValid(reg)
    requires forall id :: id in ids ==> id in reg.entries
  {
    if ids == [] then []
    else
      RoomNotices(reg.entries[ids[0]], s) + Notices(reg, ids[1..], s)
  }

  /** The rooms among `ids`, in order, that `s` leaves empty: each arms a deletion timer. */
  function Emptied(reg: Registry, ids: seq<RoomId>, s: SocketId): seq<RoomId>
    requires RegistryValid(reg)
    requires forall id :: id in ids ==> id in reg.entries
  {
    if ids == [] then []
    else
      var room := reg.entries[ids[0]];
      (if s in room.users.entries && |Evict(room, s).users.entries| == 0 then [ids[0]] else [])
      + Emptied(reg, ids[1..], s)
  }

  /** `disconnect`: visit every room in insertion order; in each that holds `s`, remove
      `s`, tell the remaining members, and arm the deletion timer if the room is now
      empty. Each visit changes only the visited room, and no room is deleted here. */
  function Disconnect(reg: Registry, s: SocketId): (r: Transition)
    requires RegistryValid(reg)
    ensures RegistryValid(r.registry)
    ensures r.registry.keys == reg.keys
    ensures forall id :: id in reg.entries ==>
      r.registry.entries[id].users.entries == reg.entries[id].users.entries - {s}
    ensures forall id :: id in reg.entries && s !in reg.entries[id].users.entries ==>
      r.registry.entries[id] == reg.entries[id]
  {
    var rooms := map id | id in reg.entries :: Evict(reg.entries[id], s);
    Transition(IMap(reg.keys, rooms), Notices(reg, reg.keys, s), Emptied(reg, reg.keys, s))
  }

  /** The rooms among `ids` that `s` and `m` are both members of, `m` not being `s`. */
  ghost function SharedRooms(reg: Registry, ids: seq<RoomId>, s: SocketId, m: SocketId): set<RoomId> {
    set id | id in ids && id in reg.entries && m != s
      && s in reg.entries[id].users.entries && m in reg.entries[id].users.entries
  }

  /** The notices one room sends when `s` leaves it. */
  function RoomNotices(room: Room, s: SocketId): seq<Delivery>
    requires RoomValid(room)
  {
    if s in room.users.entries then Announce(Evict(room, s).users.keys, UserDisconnected(s)) else []
  }

  lemma RoomNoticesCount(room: Room, s: SocketId, m: SocketId)
    requires RoomValid(room)
    ensures multiset(RoomNotices(room, s))[Delivery(m, UserDisconnected(s))] ==
      if m != s && s in room.users.entries && m in room.users.entries then 1 else 0
    ensures forall d :: d in RoomNotices(room, s) ==> d.event == UserDisconnected(s) && d.to != s
  {
    if s in room.users.entries {
      DistinctMultiplicity(RoomNotices(room, s), Delivery(m, UserDisconnected(s)));
    }
  }

  lemma {:induction false} NoticesCount(reg: Registry, ids: seq<RoomId>, s: SocketId, m: SocketId)
    requires RegistryValid(reg) && Distinct(ids)
    requires forall id :: id in ids ==> id in reg.entries
    ensures multiset(Notices(reg, ids, s))[Delivery(m, UserDisconnected(s))] == |SharedRooms(reg, ids, s, m)|
    ensures forall d :: d in Notices(reg, ids, s) ==> d.event == UserDisconnected(s) && d.to != s
  {
    if ids != [] {
      var id := ids[0];
      var block := RoomNotices(reg.entries[id], s);
      var rest := Notices(reg, ids[1..], s);
      assert Distinct(ids[1..]);
      NoticesCount(reg, ids[1..], s, m);
      RoomNoticesCount(reg.entries[id], s, m);
      assert Notices(reg, ids, s) == block + rest;
      assert multiset(block + rest) == multiset(block) + multiset(rest);
      SharedRoomsCons(reg, ids, s, m);
    }
  }

  lemma SharedRoomsCons(reg: Registry, ids: seq<RoomId>, s: SocketId, m: SocketId)
    requires Distinct(ids) && ids != [] && ids[0] in reg.entries
    ensures var users := reg.entries[ids[0]].users.entries;
      |SharedRooms(reg, ids, s, m)| ==
        |SharedRooms(reg, ids[1..], s, m)| + (if m != s && s in users && m in users then 1 else 0)
  {
    var id := ids[0];
    var users := reg.entries[id].users.entries;
    var tail := SharedRooms(reg, ids[1..], s, m);
    assert id !in ids[1..];
    assert id !in tail;
    if m != s && s in users && m in users {
      assert SharedRooms(reg, ids, s, m) == tail + {id};
    } else {
      assert SharedRooms(reg, ids, s, m) == tail;
    }
  }

  /** Who hears of a disconnect: every delivery is a `user-disconnected` for `s`, and a
      socket `m` receives one per room it shares with `s` (so none if it shares none). */
  lemma DisconnectNotifies(reg: Registry, s: SocketId)
    requires RegistryValid(reg)
    ensures var plan := Disconnect(reg, s).plan;
      && (forall d :: d in plan ==> d.event == UserDisconnected(s) && d.to != s)
      && (forall m :: multiset(plan)[Delivery(m, UserDisconnected(s))] == |SharedRooms(reg, reg.keys, s, m)|)
  {
    forall m ensures multiset(Notices(reg, reg.keys, s))[Delivery(m, UserDisconnected(s))]
                     == |SharedRooms(reg, reg.keys, s, m)| {
      NoticesCount(reg, reg.keys, s, m);
    }
    NoticesCount(reg, reg.keys, s, s);
  }

  /** Removing `s` leaves a users map empty exactly when `s` was its only possible key. */
  lemma LastOut(users: map<SocketId, User>, s: SocketId)
    ensures |users - {s}| == 0 <==> users.Keys <= {s}
  {
    var left := users - {s};
    assert left.Keys == users.Keys - {s};
    assert |left| == |left.Keys|;
  }

  lemma {:induction false} EmptiedExactly(reg: Registry, ids: seq<RoomId>, s: SocketId)
    requires RegistryValid(reg) && Distinct(ids)
    requires forall id :: id in ids ==> id in reg.entries
    ensures Distinct(Emptied(reg, ids, s))
    ensures forall id :: id in Emptied(reg, ids, s) <==>
      id in ids && reg.entries[id].users.entries.Keys == {s}
  {
    if ids != [] {
      var room := reg.entries[ids[0]];
      assert Distinct(ids[1..]);
      EmptiedExactly(reg, ids[1..], s);
      var head := if s in room.users.entries && |Evict(room, s).users.entries| == 0 then [ids[0]] else [];
      assert Emptied(reg, ids, s) == head + Emptied(reg, ids[1..], s);
      LastOut(room.users.entries, s);
      assert ids[0] !in ids[1..];
      DistinctConcat(head, Emptied(reg, ids[1..], s));
    }
  }

  /** Which deletion timers a disconnect arms: one per room that `s` was the last member
      of, and those rooms stay in the registry, empty, until the timer fires. */
  lemma DisconnectArmsTimers(reg: Registry, s: SocketId)
    requires RegistryValid(reg)
    ensures var r := Disconnect(reg, s);
      && Distinct(r.timers)
      && (forall id :: id in r.timers <==> id in reg.entries && reg.entries[id].users.entries.Keys == {s})
      && (forall id :: id in r.timers ==> id in r.registry.entries && |r.registry.entries[id].users.entries| == 0)
  {
    EmptiedExactly(reg, reg.keys, s);
    var r := Disconnect(reg, s);
    forall id | id in r.timers
      ensures id in r.registry.entries && |r.registry.entries[id].users.entries| == 0
    {
      LastOut(reg.entries[id].users.entries, s);
    }
  }

  /** A room is empty after a disconnect only if it was empty before or its timer was
      just armed. */
  lemma EmptyAfterDisconnect(reg: Registry, s: SocketId)
    requires RegistryValid(reg)
    ensures var r := Disconnect(reg, s);
      forall id :: id in r.registry.entries && |r.registry.entries[id].users.entries| == 0 ==>
        id in r.timers || |reg.entries[id].users.entries| == 0
  {
    var r := Disconnect(reg, s);
    DisconnectArmsTimers(reg, s);
    forall id | id in r.registry.entries && |r.registry.entries[id].users.entries| == 0
      ensures id in r.timers || |reg.entries[id].users.entries| == 0
    {
      LastOut(reg.entries[id].users.entries, s);
    }
  }

  lemma {:induction false} NoticesAbsent(reg: Registry, ids: seq<RoomId>, s: SocketId)
    requires RegistryValid(reg)
    requires forall id :: id in ids ==> id in reg.entries && s !in reg.entries[id].users.entries
    ensures Notices(reg, ids, s) == [] && Emptied(reg, ids, s) == []
  {
    if ids != [] {
      NoticesAbsent(reg, ids[1..], s);
    }
  }

  /** Disconnecting a socket that is in no room changes nothing and sends nothing. */
  lemma DisconnectAbsent(reg: Registry, s: SocketId)
    requires RegistryValid(reg)
    requires forall id :: id in reg.entries ==> s !in reg.entries[id].users.entries
    ensures Disconnect(reg, s) == Transition(reg, [], [])
  {
    NoticesAbsent(reg, reg.keys, s);
    var rooms := map id | id in reg.entries :: Evict(reg.entries[id], s);
    assert rooms == reg.entries;
  }

  /** A second disconnect of the same socket finds it in no room: it sends nothing,
      arms no timer and leaves the registry as it was. */
  lemma DisconnectIdempotent(reg: Registry, s: SocketId)
    requires RegistryValid(reg)
    ensures var r1 := Disconnect(reg, s);
            var r2 := Disconnect(r1.registry, s);
      r2.registry == r1.registry && r2.plan == [] && r2.timers == []
  {
    var reg1 := Disconnect(reg, s).registry;
    forall id | id in reg1.entries ensures s !in reg1.entries[id].users.entries {
      assert id in reg.keys;
    }
    DisconnectAbsent(reg1, s);
  }

  // ---------------------------------------------------------------------------
  // grace timer
  // ---------------------------------------------------------------------------

  /** The deletion timer of room `roomId` fires: the room is deleted if it is still
      there and still empty, and kept with its members otherwise. */
  function GraceExpired(reg: Registry, roomId: RoomId): (r: Registry)
    requires RegistryValid(reg)
    ensures RegistryValid(r)
    ensures roomId in r.entries <==> roomId in reg.entries && |reg.entries[roomId].users.entries| != 0
    ensures forall id :: id != roomId ==> (id in r.entries <==> id in reg.entries)
    ensures forall id :: id in r.entries ==> id in reg.entries && r.entries[id] == reg.entries[id]
  {
    if roomId in reg.entries && |reg.entries[roomId].users.entries| == 0 then reg.Delete(roomId) else reg
  }

  /** A join that lands between a room emptying and its timer firing saves the room:
      the timer then leaves the registry exactly as the join left it. */
  lemma ExpirySparesRejoined(reg: Registry, s: SocketId, roomId: RoomId, userName: string)
    requires RegistryValid(reg)
    ensures var reg' := Join(reg, s, roomId, userName).registry;
      GraceExpired(reg', roomId) == reg'
  {
    var reg' := Join(reg, s, roomId, userName).registry;
    assert s in reg'.entries[roomId].users.entries;
  }

  /** After an empty room is reclaimed, joining its id again starts a fresh room holding
      only the newcomer, with nobody to notify. */
  lemma ReclaimedRoomIsFresh(reg: Registry, roomId: RoomId, s: SocketId, userName: string)
    requires RegistryValid(reg)
    requires roomId in reg.entries && |reg.entries[roomId].users.entries| == 0
    ensures var r := Join(GraceExpired(reg, roomId), s, roomId, userName);
      && r.registry.entries[roomId].users.entries == map[s := User(s, userName)]
      && r.plan == []
  {
    var reg' := GraceExpired(reg, roomId);
    assert roomId !in reg'.entries;
    var users: IMap<SocketId, User> := Empty<SocketId, User>().Set(s, User(s, userName));
    assert users.entries == map[s := User(s, userName)];
    assert users.keys == [s];
    assert Remove(users.keys, s) == [];
    assert users.Values() == [User(s, userName)];
    assert Introductions(s, [User(s, userName)]) == [];
  }
}
