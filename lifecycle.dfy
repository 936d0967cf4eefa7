/** The room lifecycle as a pure state machine over value snapshots of the
    registry (relay/server.js:8-9, 20-26, 100-171). Each event of the relay
    is one function from the world before to the world after; the class
    Server.Relay performs the same events in place and is specified by
    these functions. A close or timer callback receives the room record its
    closure captured (`r`) and the code it captured, because the source's
    handlers read the captured record but clean up by code. */
module Lifecycle {
  import opened Wire
  import Codes
  import Routing

  /** `room.status`: "waiting" until a joiner pairs, "playing" after. */
  datatype Status = Waiting | Playing

  /** The fields of a room record; the timer handle is abstracted to whether
      its callback can still run. */
  datatype RoomView = RoomView(
    host: Conn,
    joiner: Option<Conn>,
    timerActive: bool,
    hostName: string,
    status: Status,
    createdAt: int)

  /** The `rooms` map, as values. */
  type Registry = map<Code, RoomView>

  /** The registry, the connections whose `readyState` is OPEN, and every
      send and close performed so far, in order. */
  datatype World = World(reg: Registry, open: set<Conn>, out: seq<Action>)

  /** A joiner is set exactly when the room is playing, exactly when its
      expiry timer has been cancelled. */
  predicate Consistent(r: RoomView) {
    (r.joiner.Some? <==> r.status == Playing) && (r.status == Playing <==> !r.timerActive)
  }

  predicate Inv(reg: Registry) {
    forall c | c in reg :: Consistent(reg[c])
  }

  /** A paired room that is still registered has not changed: in particular
      its joiner is never reassigned. */
  predicate PairedFrozen(before: Registry, after: Registry) {
    forall c | c in before && c in after && before[c].joiner.Some? :: after[c] == before[c]
  }

  /** The record `handleHost` creates. */
  function NewRoom(ws: Conn, hostName: string, now: int): (r: RoomView)
    ensures Consistent(r) && r.status == Waiting && r.joiner.None? && r.timerActive
  {
    RoomView(ws, None, true, hostName, Waiting, now)
  }

  /** A typed error sent to a peer, followed by closing it. */
  function SendErrorAndClose(w: World, ws: Conn, e: ErrorCode): (w': World)
    ensures w'.reg == w.reg && w'.open == w.open - {ws}
    ensures w'.out == w.out + [Send(ws, SignalMsg(Error(e))), Close(ws)]
  {
    World(w.reg, w.open - {ws}, w.out + [Send(ws, SignalMsg(Error(e))), Close(ws)])
  }

  /** `cleanupRoom(code)`: remove the entry under `code`, if any. */
  function Cleanup(reg: Registry, code: Code): (r: Registry)
    ensures code !in r
    ensures code !in reg ==> r == reg
    ensures r.Keys == reg.Keys - {code}
    ensures forall c | c in r :: r[c] == reg[c]
  {
    reg - {code}
  }

  /** `handleHost(ws, hostName)` once `generateCode` has returned `code`. */
  function Host(w: World, ws: Conn, hostName: string, code: Option<Code>, now: int): (w': World)
    ensures code.None? ==> w' == SendErrorAndClose(w, ws, ServerFull)
    ensures code.Some? ==> w'.open == w.open && w'.out == w.out + [Send(ws, SignalMsg(RoomCreated(code.value)))]
    ensures code.Some? ==> code.value in w'.reg && w'.reg[code.value] == NewRoom(ws, hostName, now)
    ensures code.Some? && code.value !in w.reg ==>
      w'.reg.Keys == w.reg.Keys + {code.value} && forall c | c in w.reg :: w'.reg[c] == w.reg[c]
    ensures Inv(w.reg) ==> Inv(w'.reg)
  {
    match code
    case None => SendErrorAndClose(w, ws, ServerFull)
    case Some(c) =>
      World(w.reg[c := NewRoom(ws, hostName, now)], w.open, w.out + [Send(ws, SignalMsg(RoomCreated(c)))])
  }

  /** `handleJoin(ws, code)`. */
  function Join(w: World, ws: Conn, code: Code): (w': World)
    ensures code !in w.reg ==> w' == SendErrorAndClose(w, ws, RoomNotFound)
    ensures code in w.reg && w.reg[code].joiner.Some? ==> w' == SendErrorAndClose(w, ws, RoomFull)
    ensures code in w.reg && w.reg[code].joiner.None? ==>
      && w'.reg.Keys == w.reg.Keys
      && (forall c | c in w.reg && c != code :: w'.reg[c] == w.reg[c])
      && w'.reg[code] == w.reg[code].(joiner := Some(ws), status := Playing, timerActive := false)
      && w'.open == w.open
      && w'.out == w.out + [Send(w.reg[code].host, SignalMsg(PeerJoined)), Send(ws, SignalMsg(Joined(code)))]
    ensures Inv(w.reg) ==> Inv(w'.reg)
    ensures PairedFrozen(w.reg, w'.reg)
  {
    if code !in w.reg then SendErrorAndClose(w, ws, RoomNotFound)
    else if w.reg[code].joiner.Some? then SendErrorAndClose(w, ws, RoomFull)
    else
      var r := w.reg[code];
      World(w.reg[code := r.(joiner := Some(ws), status := Playing, timerActive := false)],
            w.open,
            w.out + [Send(r.host, SignalMsg(PeerJoined)), Send(ws, SignalMsg(Joined(code)))])
  }

  /** A `message` handler: the frame goes, unchanged, to the other side if
      that side exists and is open, and is dropped otherwise. */
  function Forward(w: World, to: Option<Conn>, data: Payload): (w': World)
    ensures w'.reg == w.reg && w'.open == w.open
    ensures to.Some? && to.value in w.open ==> w'.out == w.out + [Send(to.value, Data(data))]
    ensures !(to.Some? && to.value in w.open) ==> w'.out == w.out
  {
    if to.Some? && to.value in w.open then w.(out := w.out + [Send(to.value, Data(data))]) else w
  }

  /** The surviving side of a close: told `peer_disconnected` and closed,
      if it exists and is still open. */
  function Notify(w: World, peer: Option<Conn>): (w': World)
    ensures w'.reg == w.reg
    ensures peer.Some? && peer.value in w.open ==>
      w'.open == w.open - {peer.value} &&
      w'.out == w.out + [Send(peer.value, SignalMsg(PeerDisconnected)), Close(peer.value)]
    ensures !(peer.Some? && peer.value in w.open) ==> w' == w
  {
    if peer.Some? && peer.value in w.open then
      World(w.reg, w.open - {peer.value}, w.out + [Send(peer.value, SignalMsg(PeerDisconnected)), Close(peer.value)])
    else w
  }

  /** The host's `close` handler: its socket is no longer open; the joiner,
      if open, is notified and closed; then `cleanupRoom(code)`. */
  function HostClose(w: World, r: RoomView, code: Code): (w': World)
    ensures w'.reg == Cleanup(w.reg, code)
    ensures r.host !in w'.open && w'.open <= w.open
    ensures r.joiner.Some? && r.joiner.value in w.open && r.joiner.value != r.host ==>
      w'.open == w.open - {r.host, r.joiner.value} &&
      w'.out == w.out + [Send(r.joiner.value, SignalMsg(PeerDisconnected)), Close(r.joiner.value)]
    ensures !(r.joiner.Some? && r.joiner.value in w.open && r.joiner.value != r.host) ==>
      w'.open == w.open - {r.host} && w'.out == w.out
    ensures Inv(w.reg) ==> Inv(w'.reg)
    ensures PairedFrozen(w.reg, w'.reg)
  {
    var w1 := Notify(w.(open := w.open - {r.host}), r.joiner);
    w1.(reg := Cleanup(w1.reg, code))
  }

  /** The joiner's `close` handler for joiner socket `ws`: it is no longer
      open; the host, if open, is notified and closed; then
      `cleanupRoom(code)`. */
  function JoinerClose(w: World, ws: Conn, r: RoomView, code: Code): (w': World)
    ensures w'.reg == Cleanup(w.reg, code)
    ensures ws !in w'.open && w'.open <= w.open
    ensures r.host in w.open && r.host != ws ==>
      w'.open == w.open - {ws, r.host} &&
      w'.out == w.out + [Send(r.host, SignalMsg(PeerDisconnected)), Close(r.host)]
    ensures !(r.host in w.open && r.host != ws) ==> w'.open == w.open - {ws} && w'.out == w.out
    ensures Inv(w.reg) ==> Inv(w'.reg)
    ensures PairedFrozen(w.reg, w'.reg)
  {
    var w1 := Notify(w.(open := w.open - {ws}), Some(r.host));
    w1.(reg := Cleanup(w1.reg, code))
  }

  /** The expiry timer's callback. A cancelled timer never runs, so the
      event changes nothing once the timer is no longer active. */
  function TimerFire(w: World, r: RoomView, code: Code): (w': World)
    ensures !r.timerActive ==> w' == w
    ensures r.timerActive ==>
      w'.reg == Cleanup(w.reg, code) && w'.open == w.open - {r.host} &&
      w'.out == w.out + [Send(r.host, SignalMsg(Error(RoomExpired))), Close(r.host)]
    ensures Inv(w.reg) ==> Inv(w'.reg)
  {
    if !r.timerActive then w
    else
      var w1 := SendErrorAndClose(w, r.host, RoomExpired);
      w1.(reg := Cleanup(w1.reg, code))
  }

  /** The `connection` handler: the new socket is open, then dispatched on
      its path; `draws` feeds `generateCode` on the host route. */
  function Accept(w: World, ws: Conn, path: string, name: Option<string>, draws: seq<Codes.Draw>, now: int): (w': World)
    requires |draws| >= Codes.MaxAttempts
    ensures Routing.Classify(path, name).Rejected? ==>
      w'.reg == w.reg && w'.open == w.open - {ws} && w'.out == w.out + [Close(ws)]
    ensures Routing.Classify(path, name).JoinRoute? ==> w'.reg.Keys == w.reg.Keys
    ensures Inv(w.reg) ==> Inv(w'.reg)
    ensures PairedFrozen(w.reg, w'.reg)
  {
    Dispatch(w.(open := w.open + {ws}), ws, Routing.Classify(path, name), draws, now)
  }

  /** The branches of the `connection` handler for an open socket `ws`:
      host, join, or close. */
  function Dispatch(w: World, ws: Conn, route: Routing.Route, draws: seq<Codes.Draw>, now: int): (w': World)
    requires |draws| >= Codes.MaxAttempts
    ensures route.HostRoute? ==>
      w' == Host(w, ws, route.hostName, Codes.FirstFree(w.reg.Keys, draws[..Codes.MaxAttempts]), now)
    ensures route.JoinRoute? ==> w' == Join(w, ws, route.code)
    ensures route.Rejected? ==> w'.reg == w.reg && w'.open == w.open - {ws} && w'.out == w.out + [Close(ws)]
    ensures Inv(w.reg) ==> Inv(w'.reg)
    ensures PairedFrozen(w.reg, w'.reg)
  {
    match route
    case HostRoute(n) => Host(w, ws, n, Codes.FirstFree(w.reg.Keys, draws[..Codes.MaxAttempts]), now)
    case JoinRoute(c) => Join(w, ws, c)
    case Rejected => World(w.reg, w.open - {ws}, w.out + [Close(ws)])
  }

  /** One `/rooms` listing entry. */
  datatype Listing = Listing(hostName: string, createdAt: int)

  /** The `/rooms` query: the rooms whose status is "waiting". */
  function WaitingRooms(reg: Registry): (m: map<Code, Listing>)
    ensures forall c :: c in m <==> c in reg && reg[c].status == Waiting
    ensures forall c | c in m :: m[c] == Listing(reg[c].hostName, reg[c].createdAt)
  {
    map c | c in reg && reg[c].status == Waiting :: Listing(reg[c].hostName, reg[c].createdAt)
  }
}
