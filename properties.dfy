/** Properties of the room lifecycle that relate several events: the
    waiting listing, timer exclusivity, the end-to-end scenarios of a room,
    invariants over whole event traces, and the limits of idempotent
    clean-up when a code is reused. */
module Properties {
  import opened Wire
  import Codes
  import opened Lifecycle

  /** A room is listed by `/rooms` exactly when a join would pair with it. */
  lemma ListedIffJoinable(w: World, ws: Conn, c: Code)
    requires Inv(w.reg)
    ensures c in WaitingRooms(w.reg) <==> c in w.reg && w.reg[c].joiner.None?
    ensures c in WaitingRooms(w.reg) <==>
      c in w.reg && Join(w, ws, c).out == w.out + [Send(w.reg[c].host, SignalMsg(PeerJoined)), Send(ws, SignalMsg(Joined(c)))]
  {
    if c in w.reg && w.reg[c].joiner.Some? {
      assert Join(w, ws, c).out[|w.out|] == Send(ws, SignalMsg(Error(RoomFull)));
    }
  }

  /** Once a room has paired, its expiry timer cannot fire: the event is a no-op. */
  lemma TimerSilentAfterPairing(w: World, r: RoomView, code: Code)
    requires Consistent(r) && r.status == Playing
    ensures TimerFire(w, r, code) == w
  {
  }

  /** Exactly one of two joins to a waiting room succeeds; the second gets
      `room_full` and the first pairing is unaffected. */
  lemma {:induction false} SinglePairing(w: World, j1: Conn, j2: Conn, code: Code)
    requires Inv(w.reg) && code in w.reg && w.reg[code].status == Waiting
    ensures Join(w, j1, code).reg[code].joiner == Some(j1)
    ensures Join(Join(w, j1, code), j2, code) == SendErrorAndClose(Join(w, j1, code), j2, RoomFull)
  {
    assert w.reg[code].joiner.None?;
  }

  /** A host creates a room, a joiner pairs, the host sends a frame, the
      joiner leaves: the signals arrive in order, the frame unchanged, and
      the registry ends as it started. */
  lemma {:induction false} PairForwardLeave(w: World, h: Conn, j: Conn, name: string, code: Code, now: int, data: Payload)
    requires code !in w.reg && h != j && h in w.open && j in w.open
    ensures
      var w1 := Host(w, h, name, Some(code), now);
      var w2 := Join(w1, j, code);
      var w3 := Forward(w2, w2.reg[code].joiner, data);
      var w4 := JoinerClose(w3, j, w3.reg[code], code);
      && w4.reg == w.reg
      && w4.open == w.open - {h, j}
      && w4.out == w.out + [
           Send(h, SignalMsg(RoomCreated(code))),
           Send(h, SignalMsg(PeerJoined)),
           Send(j, SignalMsg(Joined(code))),
           Send(j, Data(data)),
           Send(h, SignalMsg(PeerDisconnected)),
           Close(h)]
  {
    var w1 := Host(w, h, name, Some(code), now);
    var w2 := Join(w1, j, code);
    assert w2.reg[code].joiner == Some(j) && w2.reg[code].host == h;
    var w3 := Forward(w2, w2.reg[code].joiner, data);
    assert w3.reg == w2.reg && w3.open == w.open;
    var w4 := JoinerClose(w3, j, w3.reg[code], code);
    assert w4.reg == w2.reg - {code};
    assert w2.reg - {code} == w.reg;
  }

  /** A host whose room is never joined is told `room_expired` and closed,
      and the code can be drawn again. */
  lemma {:induction false} ExpiryFreesCode(w: World, h: Conn, name: string, d: Codes.Draw, now: int)
    requires Codes.CodeOf(d) !in w.reg
    ensures
      var code := Codes.CodeOf(d);
      var w1 := Host(w, h, name, Some(code), now);
      var w2 := TimerFire(w1, w1.reg[code], code);
      && w2.reg == w.reg
      && w2.out == w.out + [Send(h, SignalMsg(RoomCreated(code))), Send(h, SignalMsg(Error(RoomExpired))), Close(h)]
      && Codes.FirstFree(w2.reg.Keys, [d]) == Some(code)
  {
    var code := Codes.CodeOf(d);
    var w1 := Host(w, h, name, Some(code), now);
    var w2 := TimerFire(w1, w1.reg[code], code);
    assert w2.reg == w1.reg - {code} == w.reg;
    assert Codes.FirstFreeAt(w2.reg.Keys, [d], 0);
  }

  /** The events of the relay, as a trace. A host arrival carries the code
      `generateCode` returned for it; close and timer events carry the
      record and code their closure captured. Those records are not tied to
      the registry here, so traces over-approximate the relay (a trace may
      fire a timer with a stale waiting snapshot of a room that has since
      paired); the lemmas below hold for all of them, and the class
      Server.Relay, whose handlers read the live record, shows the timer
      silent after pairing (Server.JoinThenExpire). */
  datatype Event =
    | HostArrived(ws: Conn, hostName: string, generated: Option<Code>, now: int)
    | JoinArrived(ws: Conn, code: Code)
    | Forwarded(to: Option<Conn>, data: Payload)
    | HostClosed(r: RoomView, code: Code)
    | JoinerClosed(ws: Conn, r: RoomView, code: Code)
    | TimerFired(r: RoomView, code: Code)

  function Apply(w: World, e: Event): World {
    match e
    case HostArrived(ws, n, c, now) => Host(w, ws, n, c, now)
    case JoinArrived(ws, c) => Join(w, ws, c)
    case Forwarded(to, data) => Forward(w, to, data)
    case HostClosed(r, c) => HostClose(w, r, c)
    case JoinerClosed(ws, r, c) => JoinerClose(w, ws, r, c)
    case TimerFired(r, c) => TimerFire(w, r, c)
  }

  function Run(w: World, es: seq<Event>): World
    decreases |es|
  {
    if es == [] then w else Run(Apply(w, es[0]), es[1..])
  }

  /** Every trace keeps joiner set <=> playing <=> timer cancelled for every
      registered room. */
  lemma {:induction false} RunPreservesInv(w: World, es: seq<Event>)
    requires Inv(w.reg)
    ensures Inv(Run(w, es).reg)
    decreases |es|
  {
    if es != [] {
      RunPreservesInv(Apply(w, es[0]), es[1..]);
    }
  }

  /** The event registers a new room under `code`. */
  predicate Inserts(e: Event, code: Code) {
    e.HostArrived? && e.generated == Some(code)
  }

  /** No event but a host arrival that drew `code` can put `code` back in
      the registry. */
  lemma {:induction false} AbsentUntilInserted(w: World, es: seq<Event>, code: Code)
    requires code !in w.reg
    requires forall i :: 0 <= i < |es| ==> !Inserts(es[i], code)
    ensures code !in Run(w, es).reg
    decreases |es|
  {
    if es != [] {
      assert !Inserts(es[0], code);
      assert forall i :: 0 <= i < |es[1..]| ==> es[1..][i] == es[i + 1];
      AbsentUntilInserted(Apply(w, es[0]), es[1..], code);
    }
  }

  /** Clean-up is idempotent across any events in between, provided none of
      them registered a room under the same code: the late second
      `cleanupRoom(code)` changes nothing. */
  lemma {:induction false} CleanupIdempotentWithoutReuse(w: World, es: seq<Event>, code: Code)
    requires forall i :: 0 <= i < |es| ==> !Inserts(es[i], code)
    ensures
      var later := Run(w.(reg := Cleanup(w.reg, code)), es);
      Cleanup(later.reg, code) == later.reg
  {
    AbsentUntilInserted(w.(reg := Cleanup(w.reg, code)), es, code);
  }

  /** Without idempotence's proviso it fails: the joiner leaves, closing the
      host; the same code is drawn for a new host; the first host's late
      `close` callback then deletes the new room, although its host is
      still connected. */
  lemma {:induction false} StaleCloseDeletesReusedCode(w: World, code: Code, h2: Conn, name2: string, now2: int)
    requires code in w.reg && w.reg[code].joiner.Some?
    requires h2 in w.open && h2 != w.reg[code].host && h2 != w.reg[code].joiner.value
    ensures
      var r := w.reg[code];
      var w1 := JoinerClose(w, r.joiner.value, r, code);
      var w2 := Host(w1, h2, name2, Some(code), now2);
      var w3 := HostClose(w2, r, code);
      && code in w2.reg && w2.reg[code].host == h2
      && code !in w3.reg
      && h2 in w3.open
  {
    var r := w.reg[code];
    var w1 := JoinerClose(w, r.joiner.value, r, code);
    assert h2 in w1.open;
    var w2 := Host(w1, h2, name2, Some(code), now2);
    assert h2 in w2.open;
  }
}
