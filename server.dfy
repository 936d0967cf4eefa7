/** The relay's process-wide state and its event handlers, performed in
    place (relay/server.js:8-26, 86-171): room records are objects whose
    `joiner`, `status` and timer are reassigned, the registry is a map from
    code to room object that handlers insert into and delete from, the
    sockets' `readyState === 1` is membership of `open`, and every `send`
    and `close` is appended to `outbox`. Each handler runs to completion as
    one method, and its effect is that of the matching Lifecycle function. */
module Server {
  import opened Wire
  import Codes
  import Routing
  import Lifecycle

  /** A room record. Its closures (the timer and the host's and joiner's
      handlers) all captured the same code; `code` keeps it. */
  class Room {
    const host: Conn
    var joiner: Option<Conn>
    /** The expiry timer can still fire: set by `setTimeout`, cleared by `clearTimeout`. */
    var timerActive: bool
    const hostName: string
    var status: Lifecycle.Status
    const createdAt: int
    const code: Code

    /** The record built at relay/server.js:108-115, its timer armed. */
    constructor (host: Conn, hostName: string, createdAt: int, code: Code)
      ensures View() == Lifecycle.NewRoom(host, hostName, createdAt)
      ensures this.code == code
    {
      this.host := host;
      this.joiner := None;
      this.timerActive := true;
      this.hostName := hostName;
      this.status := Lifecycle.Waiting;
      this.createdAt := createdAt;
      this.code := code;
    }

    function View(): Lifecycle.RoomView
      reads this
    {
      Lifecycle.RoomView(host, joiner, timerActive, hostName, status, createdAt)
    }

    /** relay/server.js:149-151: the joiner is recorded, the room starts
        playing and its expiry timer is cleared. */
    method Pair(ws: Conn)
      modifies this
      ensures View() == old(View()).(joiner := Some(ws), status := Lifecycle.Playing, timerActive := false)
      ensures Consistent()
    {
      joiner := Some(ws);
      status := Lifecycle.Playing;
      timerActive := false;
    }

    /** Joiner set <=> playing <=> timer cancelled, for this record. */
    predicate Consistent()
      reads this
    {
      Lifecycle.Consistent(View())
    }
  }

  class Relay {
    /** `rooms`: code to room object. */
    var rooms: map<Code, Room>
    /** The connections whose `readyState` is OPEN. */
    var open: set<Conn>
    /** Every send and close performed, in order. */
    var outbox: seq<Action>
    /** Every room `handleHost` registered: those whose handlers exist. */
    ghost var created: set<Room>

    /** Registered rooms sit under the code their closures captured, keep
        joiner set <=> playing <=> timer cancelled, and a timer that can
        still fire belongs to a registered room. */
    ghost predicate Valid()
      reads this`rooms, this`created, rooms.Values, created
    {
      && (forall c | c in rooms :: rooms[c].code == c && rooms[c] in created)
      && (forall c | c in rooms :: rooms[c].Consistent())
      && (forall r | r in created && r.timerActive :: r.code in rooms && rooms[r.code] == r)
    }

    /** The registry as values. */
    ghost function View(): Lifecycle.Registry
      reads this`rooms, rooms.Values
    {
      map c | c in rooms :: rooms[c].View()
    }

    /** The room registered under `code`, as a frame. */
    function RoomAt(code: Code): (s: set<Room>)
      reads this`rooms
      ensures code in rooms ==> s == {rooms[code]}
      ensures code !in rooms ==> s == {}
    {
      if code in rooms then {rooms[code]} else {}
    }

    ghost function World(): Lifecycle.World
      reads this, rooms.Values
    {
      Lifecycle.World(View(), open, outbox)
    }

    /** The process starts with no rooms and no connections. */
    constructor ()
      ensures Valid() && World() == Lifecycle.World(map[], {}, [])
    {
      rooms := map[];
      open := {};
      outbox := [];
      created := {};
    }

    /** `generateCode`: up to MaxAttempts draws, the first whose code is not
        taken; None when all of them collide. */
    method GenerateCode(draws: seq<Codes.Draw>) returns (code: Option<Code>)
      requires |draws| >= Codes.MaxAttempts
      ensures code == Codes.FirstFree(rooms.Keys, draws[..Codes.MaxAttempts])
      ensures code.Some? ==> code.value !in rooms && Codes.IsCode(code.value)
    {
      ghost var tries := draws[..Codes.MaxAttempts];
      var i := 0;
      while i < Codes.MaxAttempts
        invariant 0 <= i <= Codes.MaxAttempts
        invariant forall j :: 0 <= j < i ==> Codes.CodeOf(tries[j]) in rooms
      {
        var c := Codes.CodeOf(draws[i]);
        if c !in rooms {
          assert Codes.FirstFreeAt(rooms.Keys, tries, i);
          ghost var r := Codes.FirstFree(rooms.Keys, tries);
          ghost var k :| Codes.FirstFreeAt(rooms.Keys, tries, k) && r.value == Codes.CodeOf(tries[k]);
          Codes.FirstFreeAtUnique(rooms.Keys, tries, i, k);
          Codes.CodeOfIsCode(draws[i]);
          return Some(c);
        }
        i := i + 1;
      }
      return None;
    }

    /** `cleanupRoom(code)`: cancel the timer of the room under `code` and
        delete that key; nothing happens when no room is under `code`. */
    method CleanupRoom(code: Code)
      requires Valid()
      modifies this, RoomAt(code)
      ensures Valid()
      ensures rooms == old(rooms) - {code} && created == old(created)
      ensures code in old(rooms) ==> !old(rooms)[code].timerActive
      ensures World() == old(World()).(reg := Lifecycle.Cleanup(old(View()), code))
    {
      if code in rooms {
        var room := rooms[code];
        room.timerActive := false;
        rooms := rooms - {code};
        assert forall c | c in rooms :: rooms[c] != room;
      }
    }

    /** A typed error to `ws`, then closing it: how every refusal ends. */
    method SendErrorAndClose(ws: Conn, e: ErrorCode)
      requires Valid()
      modifies this`outbox, this`open
      ensures Valid()
      ensures World() == Lifecycle.SendErrorAndClose(old(World()), ws, e)
    {
      outbox := outbox + [Send(ws, SignalMsg(Error(e))), Close(ws)];
      open := open - {ws};
    }

    /** `rooms.set(code, room)` for a fresh room under a free code. */
    method Register(code: Code, room: Room)
      requires Valid() && code !in rooms
      requires room.code == code && room.View() == Lifecycle.NewRoom(room.host, room.hostName, room.createdAt)
      modifies this`rooms, this`created
      ensures Valid() && created == old(created) + {room}
      ensures rooms == old(rooms)[code := room]
      ensures View() == old(View())[code := room.View()]
    {
      rooms := rooms[code := room];
      created := created + {room};
      forall r | r in created && r.timerActive
        ensures r.code in rooms && rooms[r.code] == r
      {
        if r != room {
          assert r.code in old(rooms);
        }
      }
    }

    /** relay/server.js:108-118 once a free code is in hand: arm the timer,
        register the room, tell the host its code. */
    method CreateRoom(ws: Conn, hostName: string, code: Code, now: int)
      requires Valid() && code !in rooms
      modifies this
      ensures Valid() && old(created) <= created
      ensures code in rooms && fresh(rooms[code]) && rooms == old(rooms)[code := rooms[code]]
      ensures World() == Lifecycle.Host(old(World()), ws, hostName, Some(code), now)
    {
      var room := new Room(ws, hostName, now, code);
      Register(code, room);
      outbox := outbox + [Send(ws, SignalMsg(RoomCreated(code)))];
    }

    /** `handleHost(ws, hostName)`, `draws` feeding `generateCode`. */
    method HandleHost(ws: Conn, hostName: string, draws: seq<Codes.Draw>, now: int)
      requires Valid() && |draws| >= Codes.MaxAttempts
      modifies this
      ensures Valid() && old(created) <= created
      ensures var c := Codes.FirstFree(old(rooms).Keys, draws[..Codes.MaxAttempts]);
        && (c.None? ==> rooms == old(rooms))
        && (c.Some? ==> c.value in rooms && fresh(rooms[c.value]) && rooms == old(rooms)[c.value := rooms[c.value]])
      ensures forall c | c in old(rooms) :: c in rooms && rooms[c] == old(rooms)[c]
      ensures World() == Lifecycle.Host(old(World()), ws, hostName, Codes.FirstFree(old(rooms).Keys, draws[..Codes.MaxAttempts]), now)
    {
      var code := GenerateCode(draws);
      if code.None? {
        SendErrorAndClose(ws, ServerFull);
      } else {
        CreateRoom(ws, hostName, code.value, now);
      }
    }

    /** relay/server.js:149-155: pair `ws` with the waiting room under `code`. */
    method Pair(ws: Conn, code: Code, room: Room)
      requires Valid() && code in rooms && rooms[code] == room && room.joiner.None?
      modifies room, this`outbox
      ensures Valid()
      ensures room.joiner == Some(ws) && !room.timerActive
      ensures View() == old(View())[code := old(room.View()).(joiner := Some(ws), status := Lifecycle.Playing, timerActive := false)]
      ensures outbox == old(outbox) + [Send(room.host, SignalMsg(PeerJoined)), Send(ws, SignalMsg(Joined(code)))]
    {
      assert forall c | c in rooms && c != code :: rooms[c] != room;
      room.Pair(ws);
      outbox := outbox + [Send(room.host, SignalMsg(PeerJoined)), Send(ws, SignalMsg(Joined(code)))];
    }

    /** `handleJoin(ws, code)`. */
    method HandleJoin(ws: Conn, code: Code)
      requires Valid()
      modifies this, RoomAt(code)
      ensures Valid() && rooms == old(rooms) && created == old(created)
      ensures code in rooms && old(rooms[code].joiner).None? ==>
        rooms[code].joiner == Some(ws) && !rooms[code].timerActive
      ensures World() == Lifecycle.Join(old(World()), ws, code)
    {
      if code !in rooms {
        SendErrorAndClose(ws, RoomNotFound);
        return;
      }
      var room := rooms[code];
      if room.joiner.Some? {
        SendErrorAndClose(ws, RoomFull);
        return;
      }
      Pair(ws, code, room);
    }

    /** The host's `message` handler: forward to the joiner if it is open. */
    method HostMessage(room: Room, data: Payload)
      requires Valid() && room in created
      modifies this`outbox
      ensures Valid()
      ensures World() == Lifecycle.Forward(old(World()), room.joiner, data)
    {
      if room.joiner.Some? && room.joiner.value in open {
        outbox := outbox + [Send(room.joiner.value, Data(data))];
      }
    }

    /** The joiner's `message` handler: forward to the host if it is open. */
    method JoinerMessage(room: Room, data: Payload)
      requires Valid() && room in created && room.joiner.Some?
      modifies this`outbox
      ensures Valid()
      ensures World() == Lifecycle.Forward(old(World()), Some(room.host), data)
    {
      if room.host in open {
        outbox := outbox + [Send(room.host, Data(data))];
      }
    }

    /** A socket is handed over by the server with `readyState` OPEN. */
    method SocketOpened(ws: Conn)
      requires Valid()
      modifies this`open
      ensures Valid()
      ensures World() == old(World()).(open := old(open) + {ws})
    {
      open := open + {ws};
    }

    /** `ws.close()` alone, for a path no route accepts. */
    method CloseSocket(ws: Conn)
      requires Valid()
      modifies this`open, this`outbox
      ensures Valid()
      ensures World() == Lifecycle.World(old(View()), old(open) - {ws}, old(outbox) + [Close(ws)])
    {
      outbox := outbox + [Close(ws)];
      open := open - {ws};
    }

    /** A socket's `readyState` leaves OPEN. */
    method SocketClosed(ws: Conn)
      requires Valid()
      modifies this`open
      ensures Valid()
      ensures World() == old(World()).(open := old(open) - {ws})
    {
      open := open - {ws};
    }

    /** The surviving peer, if it exists and is open, is sent
        `peer_disconnected` and closed. */
    method NotifyPeer(peer: Option<Conn>)
      requires Valid()
      modifies this`open, this`outbox
      ensures Valid()
      ensures World() == Lifecycle.Notify(old(World()), peer)
    {
      if peer.Some? && peer.value in open {
        outbox := outbox + [Send(peer.value, SignalMsg(PeerDisconnected)), Close(peer.value)];
        open := open - {peer.value};
      }
    }

    /** The host's `close` handler. */
    method HostClosed(room: Room)
      requires Valid() && room in created
      modifies this, RoomAt(room.code)
      ensures Valid() && created == old(created)
      ensures rooms == old(rooms) - {room.code}
      ensures World() == Lifecycle.HostClose(old(World()), old(room.View()), room.code)
    {
      SocketClosed(room.host);
      NotifyPeer(room.joiner);
      CleanupRoom(room.code);
    }

    /** The joiner's `close` handler; it exists only once the room has paired. */
    method JoinerClosed(room: Room)
      requires Valid() && room in created && room.joiner.Some?
      modifies this, RoomAt(room.code)
      ensures Valid() && created == old(created)
      ensures rooms == old(rooms) - {room.code}
      ensures World() == Lifecycle.JoinerClose(old(World()), old(room.joiner.value), old(room.View()), room.code)
    {
      SocketClosed(room.joiner.value);
      NotifyPeer(Some(room.host));
      CleanupRoom(room.code);
    }

    /** The expiry timer fires. A timer that `clearTimeout` cancelled never
        runs its callback, so then nothing happens. */
    method TimerFired(room: Room)
      requires Valid() && room in created
      modifies this, RoomAt(room.code)
      ensures Valid() && created == old(created)
      ensures rooms == if old(room.timerActive) then old(rooms) - {room.code} else old(rooms)
      ensures !old(room.timerActive) ==> World() == old(World())
      ensures World() == Lifecycle.TimerFire(old(World()), old(room.View()), room.code)
    {
      if !room.timerActive {
        return;
      }
      SendErrorAndClose(room.host, RoomExpired);
      CleanupRoom(room.code);
    }

    /** The `connection` handler: `ws` is open, then dispatched on its path. */
    method Accept(ws: Conn, path: string, name: Option<string>, draws: seq<Codes.Draw>, now: int)
      requires Valid() && |draws| >= Codes.MaxAttempts
      modifies this, rooms.Values
      ensures Valid() && old(created) <= created
      ensures !Routing.Classify(path, name).HostRoute? ==> rooms == old(rooms)
      ensures forall c | c in old(rooms) :: c in rooms && rooms[c] == old(rooms)[c]
      ensures World() == Lifecycle.Accept(old(World()), ws, path, name, draws, now)
    {
      SocketOpened(ws);
      Dispatch(ws, Routing.Classify(path, name), draws, now);
    }

    /** relay/server.js:88-97 for the open socket `ws`. */
    method Dispatch(ws: Conn, route: Routing.Route, draws: seq<Codes.Draw>, now: int)
      requires Valid() && |draws| >= Codes.MaxAttempts
      modifies this, rooms.Values
      ensures Valid() && old(created) <= created
      ensures !route.HostRoute? ==> rooms == old(rooms)
      ensures forall c | c in old(rooms) :: c in rooms && rooms[c] == old(rooms)[c]
      ensures World() == Lifecycle.Dispatch(old(World()), ws, route, draws, now)
    {
      match route
      case HostRoute(n) =>
        HandleHost(ws, n, draws, now);
      case JoinRoute(c) =>
        HandleJoin(ws, c);
      case Rejected =>
        CloseSocket(ws);
    }

    /** The `/rooms` listing: the registered rooms that are waiting. */
    function Waiting(): (m: map<Code, Lifecycle.Listing>)
      reads this, rooms.Values
      ensures m == Lifecycle.WaitingRooms(View())
    {
      map c | c in rooms && rooms[c].status == Lifecycle.Waiting :: Lifecycle.Listing(rooms[c].hostName, rooms[c].createdAt)
    }
  }

  /** Pairing silences the expiry timer: the timer event that follows a
      successful join changes nothing. */
  method JoinThenExpire(relay: Relay, ws: Conn, code: Code)
    requires relay.Valid() && code in relay.rooms && relay.rooms[code].joiner.None?
    modifies relay, relay.rooms.Values
    ensures relay.Valid()
    ensures relay.World() == Lifecycle.Join(old(relay.World()), ws, code)
  {
    var room := relay.rooms[code];
    relay.HandleJoin(ws, code);
    relay.TimerFired(room);
  }

  /** One room's host leaving touches no other room: a paired room under
      another code still relays its joiner's frames to its host. */
  method CloseThenForward(relay: Relay, a: Room, b: Room, data: Payload)
    requires relay.Valid() && a in relay.created
    requires b.code in relay.rooms && relay.rooms[b.code] == b && b.code != a.code && b.joiner.Some?
    modifies relay, relay.rooms.Values
    ensures relay.Valid() && b.code in relay.rooms && relay.rooms[b.code] == b
    ensures relay.World() == Lifecycle.Forward(Lifecycle.HostClose(old(relay.World()), old(a.View()), a.code), Some(b.host), data)
  {
    relay.HostClosed(a);
    relay.JoinerMessage(b, data);
  }
}
