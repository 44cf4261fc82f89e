/** The signalling server as one state machine: the room registry together with the
    deletion timers that are still pending. Socket events and timer expiries are inputs;
    each step returns the next state and the deliveries to hand to Socket.IO. Real time
    is not modelled: a pending timer may fire at any later step. */
module Server {
  import opened InsertionMap
  import Rooms

  /** The registry and the multiset of rooms whose deletion timer is pending (a room can
      have several, one per time it was emptied). */
  datatype State = State(registry: Rooms.Registry, pending: multiset<Rooms.RoomId>)

  /** What can happen to the server. */
  datatype Input =
    | JoinRoom(socket: Rooms.SocketId, roomId: Rooms.RoomId, userName: string)
    | SignalMessage(socket: Rooms.SocketId, kind: Rooms.SignalKind, target: Rooms.SocketId,
                    data: map<string, Rooms.Blob>)
    | SocketClosed(socket: Rooms.SocketId)
    | GraceTimerFired(roomId: Rooms.RoomId)

  datatype Output = Output(state: State, plan: seq<Rooms.Delivery>)

  /** A server that has just started: no rooms, no timers. */
  function Initial(): (st: State)
    ensures Inv(st)
  {
    State(Empty(), multiset{})
  }

  /** The registry is well formed, and every empty room still in it has a pending timer
      that will re-check it: no room is left empty for good. */
  ghost predicate Inv(st: State) {
    && Rooms.RegistryValid(st.registry)
    && forall id :: id in st.registry.entries && |st.registry.entries[id].users.entries| == 0 ==>
         id in st.pending
  }

  /** Dispatch one input to its handler. A timer that is not pending does not exist and
      cannot fire, so such an input changes nothing. */
  function Step(st: State, input: Input): (r: Output)
    requires Rooms.RegistryValid(st.registry)
    ensures Rooms.RegistryValid(r.state.registry)
    ensures input.GraceTimerFired? ==> r.plan == []
    ensures !input.SocketClosed? && !input.GraceTimerFired? ==> r.state.pending == st.pending
  {
    match input
    case JoinRoom(s, roomId, userName) =>
      var t := Rooms.Join(st.registry, s, roomId, userName);
      Output(State(t.registry, st.pending), t.plan)
    case SignalMessage(s, kind, target, data) =>
      var t := Rooms.Relay(st.registry, s, kind, target, data);
      Output(State(t.registry, st.pending), t.plan)
    case SocketClosed(s) =>
      var t := Rooms.Disconnect(st.registry, s);
      Output(State(t.registry, st.pending + multiset(t.timers)), t.plan)
    case GraceTimerFired(roomId) =>
      if roomId in st.pending then
        Output(State(Rooms.GraceExpired(st.registry, roomId), st.pending - multiset{roomId}), [])
      else Output(st, [])
  }

  lemma JoinKeepsInv(st: State, s: Rooms.SocketId, roomId: Rooms.RoomId, userName: string)
    requires Inv(st)
    ensures Inv(Step(st, JoinRoom(s, roomId, userName)).state)
  {
    var t := Rooms.Join(st.registry, s, roomId, userName);
    assert Step(st, JoinRoom(s, roomId, userName)).state == State(t.registry, st.pending);
    assert s in t.registry.entries[roomId].users.entries;
    assert |t.registry.entries[roomId].users.entries| != 0;
  }

  lemma ClosedKeepsInv(st: State, s: Rooms.SocketId)
    requires Inv(st)
    ensures Inv(Step(st, SocketClosed(s)).state)
  {
    var t := Rooms.Disconnect(st.registry, s);
    var pending := st.pending + multiset(t.timers);
    assert Step(st, SocketClosed(s)).state == State(t.registry, pending);
    Rooms.EmptyAfterDisconnect(st.registry, s);
    forall id | id in t.registry.entries && |t.registry.entries[id].users.entries| == 0
      ensures id in pending
    {
      if id in t.timers {
        assert id in multiset(t.timers);
      }
    }
  }

  lemma TimerKeepsInv(st: State, roomId: Rooms.RoomId)
    requires Inv(st)
    ensures Inv(Step(st, GraceTimerFired(roomId)).state)
  {
    if roomId in st.pending {
      var reg := Rooms.GraceExpired(st.registry, roomId);
      var pending := st.pending - multiset{roomId};
      forall id | id in reg.entries && |reg.entries[id].users.entries| == 0
        ensures id in pending
      {
        assert id != roomId;
        assert st.registry.entries[id] == reg.entries[id];
      }
    }
  }

  /** Every step keeps the invariant: a room can only become empty through a disconnect,
      which arms its timer, and a timer only retires once its room is gone or refilled. */
  lemma StepPreservesInv(st: State, input: Input)
    requires Inv(st)
    ensures Inv(Step(st, input).state)
  {
    match input
    case JoinRoom(s, roomId, userName) => JoinKeepsInv(st, s, roomId, userName);
    case SignalMessage(s, kind, target, data) =>
    case SocketClosed(s) => ClosedKeepsInv(st, s);
    case GraceTimerFired(roomId) => TimerKeepsInv(st, roomId);
  }

  /** The state after the inputs, one by one. */
  function Run(st: State, inputs: seq<Input>): (r: State)
    requires Inv(st)
    ensures Inv(r)
    decreases |inputs|
  {
    if inputs == [] then st
    else
      StepPreservesInv(st, inputs[0]);
      Run(Step(st, inputs[0]).state, inputs[1..])
  }

  /** One timer input per room id, in order. */
  function TimerInputs(fired: seq<Rooms.RoomId>): (r: seq<Input>)
    ensures |r| == |fired|
    ensures forall i :: 0 <= i < |r| ==> r[i] == GraceTimerFired(fired[i])
  {
    if fired == [] then [] else [GraceTimerFired(fired[0])] + TimerInputs(fired[1..])
  }

  /** A pending timer that fires retires exactly one pending entry. */
  lemma TimerRetires(st: State, roomId: Rooms.RoomId)
    requires Rooms.RegistryValid(st.registry) && roomId in st.pending
    ensures Step(st, GraceTimerFired(roomId)).state.pending == st.pending - multiset{roomId}
  {
  }

  /** Firing every pending timer, in any order and with no other input in between,
      reclaims every empty room: none is left and no timer remains. */
  lemma {:induction false} DrainReclaims(st: State, fired: seq<Rooms.RoomId>)
    requires Inv(st)
    requires multiset(fired) == st.pending
    ensures var end := Run(st, TimerInputs(fired));
      && end.pending == multiset{}
      && forall id :: id in end.registry.entries ==> |end.registry.entries[id].users.entries| != 0
    decreases |fired|
  {
    if fired != [] {
      assert fired == [fired[0]] + fired[1..];
      assert fired[0] in st.pending;
      var inputs := TimerInputs(fired);
      assert inputs == [GraceTimerFired(fired[0])] + TimerInputs(fired[1..]);
      StepPreservesInv(st, inputs[0]);
      TimerRetires(st, fired[0]);
      var st' := Step(st, inputs[0]).state;
      assert st'.pending == multiset(fired[1..]);
      DrainReclaims(st', fired[1..]);
      assert inputs[1..] == TimerInputs(fired[1..]);
    }
  }

  /** Each handler emits under one Socket.IO event name: a join only `user-connected`, a
      signal only the name it arrived under, a disconnect only `user-disconnected`, and a
      timer nothing at all. */
  lemma EmittedNames(st: State, input: Input)
    requires Rooms.RegistryValid(st.registry)
    ensures forall d :: d in Step(st, input).plan ==>
      && (input.JoinRoom? ==> Rooms.EventName(d.event) == "user-connected")
      && (input.SignalMessage? ==> Rooms.EventName(d.event) == Rooms.SignalEvent(input.kind))
      && (input.SocketClosed? ==> Rooms.EventName(d.event) == "user-disconnected")
      && !input.GraceTimerFired?
  {
    match input
    case JoinRoom(s, roomId, userName) => Rooms.JoinPlan(st.registry, s, roomId, userName);
    case SignalMessage(s, kind, target, data) =>
    case SocketClosed(s) => Rooms.DisconnectNotifies(st.registry, s);
    case GraceTimerFired(roomId) =>
  }
}
