# BOM relay: room lifecycle model

A Dafny model of the WebSocket relay in `relay/server.js`. The relay pairs
two peers through a six-character room code:

- a host connects on `/host` and receives a fresh code;
- a joiner connects on `/join/<code>`;
- from then on, every frame one side sends is forwarded to the other;
- the room is removed when either side closes, or when its expiry timer fires
  before anyone joins.

The relay also serves `GET /rooms`, which lists the rooms still waiting. It
also rewrites the handshake's `Sec-WebSocket-Accept` header into a legacy
spelling that some clients expect.

The model has two layers.

- **Pure layer** (`Lifecycle`, `Codes`, `Routing`). Each relay event is a
  function from the world before to the world after. The world is the
  registry as values, the set of open connections, and the log of every
  send and close performed.
- **Class layer** (`Server`). This is the same engine working in place:
  - `Room` objects whose `joiner`, `status` and timer are reassigned;
  - a `Relay` holding the `rooms` map, the `open` set and the `outbox`;
  - one method per handler. Each event handler is proved to have exactly
    the effect of its `Lifecycle` function, and to say which `Room` objects
    the registry holds afterwards. Every method keeps `Valid()`:
    - every room sits under the code its closures captured;
    - a room has a joiner exactly when it is playing, exactly when its timer
      is cancelled;
    - a timer that can still fire belongs to a registered room.

The header rewrite is a `Headers` class (module `Handshake`) whose `lines`
the callback rewrites in place. Its regular expression is modelled exactly:
- the header name is matched ASCII case-insensitively;
- whitespace is JavaScript's `\s`;
- `.` excludes line terminators;
- backtracking is included.

Three behaviours of the code worth noting:

- **Room status.** The code stores the second status as `"playing"`
  (relay/server.js:151), although its comment and log line speak of the
  room being paired (relay/server.js:149, 156). The model calls it
  `Playing`.
- **Header copy.** The comment at relay/server.js:55-56 promises a
  standard-cased copy of the accept header. The code never adds it (see
  Findings).
- **Binary frames.** Forwarding resends `data.toString()`
  (relay/server.js:123, 160), so binary frames arrive as UTF-8 text (see
  Left out).

## Model

| member | source | states |
|---|---|---|
| Ascii.StartsWithFolded | relay/server.js:62 | a regular-expression prefix anchored with `^` under the `i` flag: every character of the prefix matches up to ASCII case |
| Ascii.Upper | relay/server.js:93 | upper-casing keeps the length and maps every character through ASCII upper-casing |
| Ascii.UpperOfLower | relay/server.js:93 | upper-casing forgets the case a string was typed in: `Upper(Lower(s)) == Upper(s)` |
| Ascii.UpperOfNoLower | relay/server.js:93 | upper-casing changes nothing on a string without lower-case letters |
| Codes.CodeOf | relay/server.js:14 | the code of a draw is its hex rendering, upper-cased and cut to six characters; CodeOfIsCode, ParseCodeOf and CodeOfParse state its properties |
| Codes.Hex | relay/server.js:14 | hex rendering yields two lower-case digits per byte, high nibble first |
| Codes.Prefix | relay/server.js:14 | `slice(0, n)` is the prefix of length min(n, length) |
| Codes.ParseCode | relay/server.js:14 | reading a code back to three bytes succeeds exactly on six upper-case hex digits |
| Codes.CodeOfIsCode | relay/server.js:14 | every drawn code is six upper-case hex digits |
| Codes.ParseCodeOf | relay/server.js:14 | decoding a drawn code gives back its three bytes (draws and codes are in bijection) |
| Codes.CodeOfParse | relay/server.js:14 | every six-digit upper-case hex string is the code of the draw it decodes to |
| Codes.FirstFree | relay/server.js:11-18 | the result is the code of the first draw not already a room key, and never a key; it is None exactly when every draw collides |
| Codes.FirstFreeAtUnique | relay/server.js:13-16 | the first non-colliding draw is unique |
| Routing.StartsWith | relay/server.js:88 | `String.prototype.startsWith`: the string's prefix of the pattern's length is the pattern |
| Routing.IsHostPath | relay/server.js:88 | the host test: exactly `/host`, or a path starting with `/host?` |
| Routing.HostNameOf | relay/server.js:90 | a missing or empty `name` becomes "Player"; any other name is kept |
| Routing.Classify | relay/server.js:86-98 | host route exactly for `/host` or a `/host?` prefix; join route exactly for `/join/` paths that are not host paths, with a code as long as the rest of the path and free of lower-case letters; every other path is rejected; the host name is `HostNameOf(name)` |
| Routing.JoinPathRoute | relay/server.js:92-94 | `/join/x` is the join route for `Upper(x)` |
| Routing.JoinAnyCase | relay/server.js:93 | a code typed in any letter case reaches the room of that code |
| Routing.JoinLowerCase | relay/server.js:93 | the lower-cased spelling of a valid code reaches that code |
| Routing.HostQueryRoute | relay/server.js:88-90 | every `/host?…` path is the host route |
| Lifecycle.NewRoom | relay/server.js:115 | a new room is waiting, has no joiner, its timer is armed, and it is consistent |
| Lifecycle.SendErrorAndClose | relay/server.js:102-105 | a refusal sends the typed error, then closes the socket; the registry is unchanged |
| Lifecycle.Cleanup | relay/server.js:20-26 | exactly the key `code` is removed, every other entry is kept, and a missing code changes nothing |
| Lifecycle.Host | relay/server.js:100-119 | no code: `server_full` and close; a code: a new waiting room under it, the other rooms kept, `room_created` sent; consistency preserved |
| Lifecycle.Join | relay/server.js:136-156 | unknown code: `room_not_found`; occupied room: `room_full`; a waiting room: the joiner is recorded, the room plays, its timer is cancelled, `peer_joined` then `joined` are sent, nothing else changes; paired rooms never change |
| Lifecycle.Forward | relay/server.js:121-125 | a frame goes unchanged to the other side exactly when that side exists and is open; otherwise it is dropped |
| Lifecycle.Notify | relay/server.js:128-131 | the surviving peer, if open, gets `peer_disconnected` and is closed; otherwise nothing happens |
| Lifecycle.HostClose | relay/server.js:127-133 | the host is no longer open; the open joiner, if any, is notified and closed; the room under the captured code is removed |
| Lifecycle.JoinerClose | relay/server.js:164-170 | the joiner is no longer open; the open host is notified and closed; the room under the captured code is removed |
| Lifecycle.TimerFire | relay/server.js:108-113 | a cancelled timer does nothing; an armed one sends `room_expired` to the host, closes it and removes the room |
| Lifecycle.Accept | relay/server.js:86-98 | a rejected path is closed and changes no room; a join keeps the set of codes; consistency and frozen pairings are preserved |
| Lifecycle.Dispatch | relay/server.js:88-97 | the host route is `Host` with the code `FirstFree` picks, the join route is `Join`, and any other path is closed with no room changed |
| Lifecycle.WaitingRooms | relay/server.js:30-35 | the listing holds exactly the waiting rooms, each with its host name and creation time |
| Properties.ListedIffJoinable | relay/server.js:30-35 | a room is listed by `/rooms` exactly when a join to it pairs, and exactly when it has no joiner |
| Properties.TimerSilentAfterPairing | relay/server.js:152 | once paired, a room's expiry timer has no effect |
| Properties.SinglePairing | relay/server.js:143-150 | of two joins to a waiting room the first pairs; the second gets `room_full` and the pairing is unaffected |
| Properties.PairForwardLeave | relay/server.js:100-170 | create, join, forward, joiner leaves: the signals arrive in order, the frame unchanged, the host is closed, and the registry ends as it began |
| Properties.ExpiryFreesCode | relay/server.js:108-113 | an unjoined room expires with `room_expired` and a close, and its code can be drawn again |
| Properties.RunPreservesInv | relay/server.js:100-171 | every trace of events keeps joiner set ⇔ playing ⇔ timer cancelled for every room |
| Properties.AbsentUntilInserted | relay/server.js:116 | only a host arrival that drew a code can put that code back in the registry |
| Properties.CleanupIdempotentWithoutReuse | relay/server.js:20-26 | a late second clean-up of a code changes nothing, provided no room was created under that code in between |
| Properties.StaleCloseDeletesReusedCode | relay/server.js:127-133 | when a code is reused, the first host's late close removes the new room while the new host is still connected |
| Handshake.IsSpace | relay/server.js:62 | JavaScript's `\s`: tab to carriage return, space, no-break space, the Unicode space separators, the line and paragraph separators and the byte-order mark |
| Handshake.IsLineTerminator | relay/server.js:62 | the characters `.` does not match: line feed, carriage return, and the line and paragraph separators |
| Handshake.LeadingSpace | relay/server.js:62 | the length of the longest leading run of `\s` characters |
| Handshake.AcceptValue | relay/server.js:62 | a match starts with the accept name up to ASCII case, and its captured value is nonempty and has no line terminator |
| Handshake.AcceptValueIsSuffix | relay/server.js:62 | the captured value is the whole rest of the header after the name and a run of white space; the run is the longest one (the value starts with a non-space), unless the rest is all white space, when the value is its last character |
| Handshake.AcceptValueMatches | relay/server.js:62 | the pattern matches whenever the name, up to case, is followed by white space up to a point from which the rest is nonempty and free of line terminators |
| Handshake.HasAcceptName | relay/server.js:80 | the `some` test: some header starts with the accept name up to ASCII case |
| Handshake.FirstAccept | relay/server.js:61-68 | the index of the first matching header, with no match before it; None exactly when no header matches |
| Handshake.AcceptRewrite | relay/server.js:57-84 | no match leaves the list unchanged; otherwise only the first match is replaced by the legacy spelling with its value, and the length never changes |
| Handshake.LegacyRematches | relay/server.js:62-74 | the legacy header written back matches again, with the same value |
| Handshake.AcceptRewriteIdempotent | relay/server.js:57-84 | rewriting twice equals rewriting once, so no duplicate legacy entry appears |
| Handshake.StandardCopyMissing | relay/server.js:80-83 | a response whose accept header carries `abc=` comes back with only the legacy spelling and no RFC-cased header |
| Handshake.StandardMatches | relay/server.js:62 | an RFC-cased header whose value starts with a character that is not white space matches with that value |
| Handshake.IntendedRewrite | relay/server.js:79-83 | with a case-sensitive copy test, no match leaves the list unchanged |
| Handshake.IntendedKeepsBoth | relay/server.js:55-56 | the corrected rewrite leaves the legacy header with the accepted value and some RFC-cased header; when a second accept header already has the RFC casing, that one is kept as it is, whatever its value |
| Handshake.IntendedCopiesValue | relay/server.js:79-83 | when the response has a single accept header, the corrected rewrite sends the RFC-cased copy `Sec-WebSocket-Accept: V` with the accepted value V |
| Handshake.IntendedStandardCopy | relay/server.js:79-83 | the response of StandardCopyMissing comes back from the corrected rewrite with the legacy header and the RFC-cased copy, both carrying `abc=` |
| Handshake.IntendedIdempotent | relay/server.js:55-56 | the corrected rewrite applied twice adds nothing the second time |
| Handshake.Headers.RewriteAccept | relay/server.js:57-84 | the in-place loop, overwrite and case-insensitive copy check leave `lines` equal to `AcceptRewrite` of the old list |
| Server.Room.constructor | relay/server.js:115 | the record is `NewRoom` of the host, name and time, and keeps the captured code |
| Server.Room.Pair | relay/server.js:150-152 | the joiner is recorded, the status is playing and the timer is cancelled |
| Server.Relay.constructor | relay/server.js:9 | the relay starts with no rooms, no connections and no output |
| Server.Relay.GenerateCode | relay/server.js:11-18 | the loop returns `FirstFree` of the first ten draws, which is a valid code and not a key |
| Server.Relay.CleanupRoom | relay/server.js:20-26 | only the key `code` is deleted and its timer cancelled; the world becomes `Cleanup` of the old one |
| Server.Relay.SendErrorAndClose | relay/server.js:103-104 | the error is sent and the socket closed, as `Lifecycle.SendErrorAndClose` |
| Server.Relay.Register | relay/server.js:116 | `rooms` becomes the old map with the new room object under its code |
| Server.Relay.CreateRoom | relay/server.js:108-118 | a fresh room object is added under the code and every other entry is the same object; the world becomes `Lifecycle.Host` with that code |
| Server.Relay.HandleHost | relay/server.js:100-119 | `rooms` is unchanged when no code is free, and otherwise gains one fresh room under the code `FirstFree` picks from the old keys; the world becomes `Lifecycle.Host` with that code |
| Server.Relay.Pair | relay/server.js:149-155 | the room under `code` is paired in place, the others are unchanged, and the two signals are appended |
| Server.Relay.HandleJoin | relay/server.js:136-156 | the world becomes `Lifecycle.Join`, `rooms` holds the same objects, and a room that was waiting now has the joiner and a cancelled timer |
| Server.Relay.HostMessage | relay/server.js:121-125 | the world becomes `Lifecycle.Forward` toward the room's current joiner |
| Server.Relay.JoinerMessage | relay/server.js:158-162 | the world becomes `Lifecycle.Forward` toward the host |
| Server.Relay.SocketOpened | relay/server.js:86 | the new socket joins the open set and nothing else changes |
| Server.Relay.CloseSocket | relay/server.js:96 | the close is logged and the socket leaves the open set |
| Server.Relay.SocketClosed | relay/server.js:127 | the closing socket leaves the open set and nothing else changes |
| Server.Relay.NotifyPeer | relay/server.js:128-131 | the world becomes `Lifecycle.Notify` |
| Server.Relay.HostClosed | relay/server.js:127-133 | `rooms` loses exactly the captured code, and the world becomes `Lifecycle.HostClose` of the room as it was |
| Server.Relay.JoinerClosed | relay/server.js:164-170 | `rooms` loses exactly the captured code, and the world becomes `Lifecycle.JoinerClose` of the room as it was |
| Server.Relay.TimerFired | relay/server.js:108-113 | an armed timer removes exactly the captured code from `rooms`; a cancelled one changes nothing; the world becomes `Lifecycle.TimerFire` |
| Server.Relay.Accept | relay/server.js:86-98 | every existing entry of `rooms` is the same object afterwards, and only the host route adds one; the world becomes `Lifecycle.Accept` |
| Server.Relay.Dispatch | relay/server.js:88-97 | the world becomes `Lifecycle.Dispatch` of the route, and existing entries of `rooms` are kept |
| Server.JoinThenExpire | relay/server.js:108-113 | after a join pairs a room, its timer event leaves the world as the join left it |
| Server.CloseThenForward | relay/server.js:127-162 | one host leaving keeps every other room: a paired room under another code is the same object and still forwards its joiner's frames to its host |
| Server.Relay.Waiting | relay/server.js:30-35 | the listing is `WaitingRooms` of the registry's values |

## Left out

- Networking is not modelled: the HTTP server, `server.listen` and `PORT`, the `ws` library and its framing, and JSON encoding. Signals are a datatype. Sends and closes are appended to an output log.
- The `/rooms` response headers and JSON body are left out, and so is the plain-text status page. The order of items in the listing is also left out: the listing is a map, where `Map` iteration follows insertion order.
- `crypto.randomBytes` is an input: `GenerateCode` receives the three-byte draws the generator would produce.
- `Date.now()` is the `now` input.
- Timers are left out: `setTimeout`'s five-minute delay is not modelled, and a timer is a flag that `clearTimeout` lowers. The firing is an event that may be applied at any moment.
- `console.log` has no effect on the model.
- The host URL's query string is not parsed: `name` is the already extracted `searchParams.get("name")`.
- `readyState === 1` is membership of the open set. A socket leaves it when the relay closes it, or in its own close event. A connection dropped by the peer is modelled by its close event alone.
- Concurrency is left out: each handler runs to completion as one event, as on Node's single thread.
- Lifecycle.Forward: `data.toString()` is the identity on an opaque payload string. The model does not capture that binary frames are decoded as UTF-8 and resent as text.
- Ascii.Upper: `toUpperCase` is modelled on ASCII letters only. Outside ASCII, JavaScript can change a string's length (ß becomes SS).
- Strings are sequences of Unicode scalar values, while JavaScript strings are UTF-16 code units. Lone surrogates are not representable.
- Server.Relay.JoinerClosed requires a paired room, because the joiner's handlers are installed only at pairing.
- Handshake.Headers.RewriteAccept: the push at relay/server.js:76 is unreachable, because a match always records its index, and the model proves the branch dead.

## Findings

| source | as written | input that shows it | evidently intended | confidence | as-written member | corrected member |
|---|---|---|---|---|---|---|
| relay/server.js:80 | the RFC-cased copy is pushed only if no header matches `/^Sec-WebSocket-Accept:/i`; the `i` flag makes the legacy header just written match, so no copy is ever pushed | headers `["HTTP/1.1 101 Switching Protocols", "Sec-WebSocket-Accept: abc="]` become `["HTTP/1.1 101 Switching Protocols", "Sec-Websocket-Accept: abc="]` | test for the RFC casing case-sensitively, so that both spellings are sent as relay/server.js:55-56 says | not executed | Handshake.StandardCopyMissing | Handshake.IntendedRewrite, Handshake.IntendedCopiesValue |
