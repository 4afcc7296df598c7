# Signaling core of the video-conference frontend

This project models, in Dafny, the WebRTC signaling logic of the browser client in
`src/main.ts`. The client joins a room through a relay WebSocket. The relay
forwards JSON envelopes `{type, payload, target, sender}` between peers. For each
remote peer the client keeps one `RTCPeerConnection` in the dictionary
`peerConnections`. A received envelope is routed to one of five handlers:

- `new-peer` makes and sends an offer;
- `offer` is applied, and an answer is made and sent;
- `answer` is applied;
- `candidate` is added;
- `peer-left` closes and forgets the connection.

Outgoing envelopes go through `sendMessage`, which sends only while the socket is
open and otherwise drops the envelope.

The project has four modules.

- `Signaling` (`signaling.dfy`) holds the envelope and the routing decision of the
  socket's message handler, as pure functions.
  - JavaScript truthiness is written out: an absent or empty `target`/`sender` is
    falsy, and so are an undefined, null or empty payload.
  - `Route` returns an `Action`: the message is dropped, it is the client's own
    echo, its sender is missing (the handler throws), its type is unknown (only
    logged), or exactly one handler runs, keyed by the sender.
- `Registry` (`registry.dfy`) holds the browser objects as opaque handles and the
  specification functions the client is proved against.
  - A connection is `Conn(serial)`, numbered in creation order. A track is `Track(id)`.
  - Every browser call and every envelope handed to the socket is an `Event`.
  - Each handler's calls, given how the browser settles its promises, are a
    sequence of events.
  - The registry invariant `Consistent` says:
    - every registered connection was created for its peer and is still open;
    - every connection created and not yet closed is registered, so none leaks;
    - no connection serves two peers;
    - every call on a connection comes after its creation;
    - no connection is created twice or closed twice;
    - every envelope sent is signed by this client and names a non-empty target.
  - The peer set after any sequence of messages is given by `Replay`.
    `Frontend.Client.OnMessages` proves that the client's peer set follows it.
- `Frontend` (`client.dfy`) holds the closure state of `main.ts` after joining,
  as the class `Client`.
  - Its fields are `peers` (for `peerConnections`), the socket's `readyState`, the
    call `trace` and the serial of the next connection.
  - Every handler is a method that updates them. Each handler is proved to keep
    `Valid()` and to produce exactly the specified calls. The helper methods
    (`SendMessage`, `AddLocalTracks`, `NewPeerConnection`, `SendOffer`,
    `SendAnswer`) are proved to produce exactly their calls.
  - The calls of `SendOffer`, `SendAnswer`, `HandleAnswer`, `HandleCandidate` and
    `OnIceCandidate` are specified by the `Registry` functions of the same name
    with `Calls` appended, for example `SendOfferCalls`.
  - Three scenario methods run a join between peer-1 and peer-2:
    - `OfferSentScenario`: a new-peer makes peer-1 send an offer;
    - `AnswerSentScenario`: that offer makes peer-2 send an answer;
    - `AnswerAppliedScenario`: the answer is applied to peer-1's connection for
      peer-2.
- `ObjectKeys` (`object_keys.dfy`) models `peerConnections` as the plain object
  it is, for the finding below.

The outcomes of awaited browser promises are parameters (`Replies`). A rejection
ends the handler, as its `try`/`catch` does.

## Model

| member | source | states |
|---|---|---|
| `Signaling.Dispatch` | src/main.ts:103-138 | Each of the five known types selects its own handler. The handler is keyed by the given peer. Offer, answer and candidate carry the payload unchanged. |
| `Signaling.Route` | src/main.ts:89-141 | A message is dropped exactly when its target is set, is not this client, and the type is neither peer-left nor new-peer. A handler runs exactly when the message is not dropped, the type is known, and a sender other than this client is present. That handler is the one for the type, keyed by the sender, whose id is never this client's or empty. An echo of this client's own message runs nothing. The handler throws for a missing sender exactly when the message is not dropped, the type is known, and the sender is absent or empty (and is not this client's own id). An unknown type runs nothing and is only logged. |
| `Signaling.Envelope` | src/main.ts:220-225 | The envelope built for sendMessage (also at lines 194-199 and 238-243) runs, at its target, the handler of its type keyed by this client. Every other client drops it. Echoed back to the sender, it runs no handler. |
| `Registry.AttachEachTrackOnce` | src/main.ts:167-169 | A new connection receives every local track exactly as often as the stream holds it, and only that connection receives them. |
| `Registry.DistinctOccursOnce` | src/main.ts:167 | Each track of a stream whose tracks are distinct, as `getTracks()` returns them, occurs in it once. |
| `Registry.AttachDistinctOnce` | src/main.ts:167-169 | Each local track is attached to the new connection exactly once. |
| `Registry.Registered` | src/main.ts:162-212 | getOrCreatePeerConnection adds exactly the key `peerId`. It leaves every existing entry unchanged. An unknown peer is bound to the new connection. |
| `Registry.OutboundAddressing` | src/main.ts:191-247 | Every envelope that createAndSendOffer, handleOffer or the ICE emitter sends is of that handler's type, is addressed to the peer it serves, and is signed by this client. It leaves only while the socket is OPEN. A falsy candidate is neither added nor sent. |
| `Registry.SendOfferCallsHarmless` | src/main.ts:216-228 | Every call createAndSendOffer makes once it holds `pc`, other than the envelope it sends, is on `pc`. These calls create and close nothing. The envelope is signed and has a non-empty target. |
| `Registry.SendAnswerCallsHarmless` | src/main.ts:233-246 | Every call handleOffer makes once it holds `pc`, other than the envelope it sends, is on `pc`. These calls create and close nothing. The envelope is signed and has a non-empty target. |
| `Registry.ClosedInExactly` | src/main.ts:271-275 | The set of closed connections that the invariant tracks holds exactly the connections the trace closes. |
| `Registry.WellFormedMeans` | src/main.ts:162-212 | In a well-formed trace every call on a connection other than its creation comes after a creation call for that connection. Every call names a connection below the next serial. Every envelope sent is signed by this client and has a non-empty target. |
| `Registry.NothingTwice` | src/main.ts:271-275 | In a well-formed trace no connection is created twice, and none is closed twice. |
| `Registry.AppendKeepsConsistent` | src/main.ts:214-269 | The registry invariant is kept by appending calls that create and close nothing, are on already created connections, and whose envelopes are signed with a non-empty target. |
| `Registry.CreateKeepsConsistent` | src/main.ts:162-212 | Creating and registering a connection for an unknown peer keeps the invariant. The new connection is fresh, so it is open and serves no other peer. |
| `Registry.OpenIsRegistered` | src/main.ts:271-275 | No connection leaks: a connection the trace creates and never closes is registered to some peer. |
| `Registry.CloseKeepsConsistent` | src/main.ts:271-275 | Closing a registered peer's connection and deleting its key keeps the invariant. |
| `Registry.NoSelfConnection` | src/main.ts:103-138 | Whatever messages arrive, the client never holds a connection keyed by its own id or by the empty id. |
| `Registry.UntouchedKeepsMembership` | src/main.ts:103-141 | A peer that no message names as the sender of a handled type keeps its membership. |
| `Registry.PresentUntilLeft` | src/main.ts:104-131 | After a new-peer, offer, answer or candidate from a peer, the client holds a connection to it until a peer-left from that peer. This holds even when the peer was unknown, for example on an early answer. |
| `Registry.AbsentAfterLeft` | src/main.ts:271-275 | After a peer-left from a peer, the client holds no connection to it until that peer is heard from again. |
| `Registry.DuplicateDelivery` | src/main.ts:162-163 | Delivering a message twice in a row leaves the same peers connected as delivering it once. |
| `Frontend.Client.constructor` | src/main.ts:48-50 | Right after the first join, the dictionary is empty, nothing has been sent, no connection has been created yet, and the invariant holds. The local tracks are distinct. |
| `Frontend.Client.ReadyStateChanged` | src/main.ts:84-87 | The browser moves the socket's readyState. Nothing else changes. |
| `Frontend.Client.SendMessage` | src/main.ts:283-289 | An envelope is appended to what the socket sends exactly when readyState is OPEN. Otherwise it is dropped and not queued. |
| `Frontend.Client.AddLocalTracks` | src/main.ts:167-169 | The loop attaches the local tracks to `pc`, one addTrack call per track, in stream order. |
| `Frontend.Client.NewPeerConnection` | src/main.ts:164-169 | The new connection carries the next serial. Its creation is followed by the attachment of every local track. |
| `Frontend.Client.GetOrCreatePeerConnection` | src/main.ts:162-212 | A known peer gets its existing connection and nothing changes. An unknown peer gets a fresh connection with the tracks attached, registered under exactly that key. This uses the corrected membership test (see Findings). The invariant is kept. |
| `Frontend.Client.SendOffer` | src/main.ts:216-228 | The calls are createOffer, then setLocalDescription, then the offer to sendMessage. Each later call happens only if the promise before it resolves. |
| `Frontend.Client.CreateAndSendOffer` | src/main.ts:214-229 | The connection is found or created, then the offer calls are made on it. The invariant is kept. The peer id is non-empty, as the message handler guarantees at line 107. |
| `Frontend.Client.SendAnswer` | src/main.ts:233-246 | The calls are setRemoteDescription, createAnswer, setLocalDescription, then the answer to sendMessage. A rejection stops the sequence. |
| `Frontend.Client.HandleOffer` | src/main.ts:231-247 | The connection is found or created, then the answer calls are made on it. The invariant is kept. The peer id is non-empty, as the message handler guarantees at line 114. |
| `Frontend.Client.HandleAnswer` | src/main.ts:249-257 | The connection is found or created, even for a peer never offered to, and the remote answer is applied to it. |
| `Frontend.Client.HandleCandidate` | src/main.ts:259-269 | The connection is found or created. A truthy candidate is added to it, and a falsy candidate is skipped. |
| `Frontend.Client.HandlePeerLeft` | src/main.ts:271-281 | A registered peer's connection is closed, then its key is deleted. An unknown peer changes nothing. The invariant is kept. |
| `Frontend.Client.OnIceCandidate` | src/main.ts:191-201 | The handler runs only for a registered peer, whose connection is still open. A truthy candidate is sent to that peer, signed by this client. A falsy one is not. |
| `Frontend.Client.OnMessage` | src/main.ts:89-141 | The peer set becomes `KeysAfter` of the routing decision. For new-peer, offer, answer and candidate, the registry becomes `Registered` for the sender: every other entry is kept, and an unknown sender is bound to the connection with the next serial, which then advances. For peer-left, the sender's entry is removed, every other entry is kept, and the serial is unchanged. The selected handler's calls are made on the peer's existing or new connection. A message that reaches no handler changes nothing. The client never registers itself. |
| `Frontend.Client.OnMessages` | src/main.ts:89-141 | After the socket delivers a sequence of messages in order, the client's peer set is the one `Replay` gives, and the invariant holds. So `PresentUntilLeft`, `AbsentAfterLeft`, `NoSelfConnection` and `DuplicateDelivery` hold of the client itself. |
| `ObjectKeys.RegisteredAsWritten` | src/main.ts:162-212 | This is the registry update as written, with the `!peerConnections[peerId]` test on a plain object. It agrees with `Registered` except for the names Object.prototype provides, which it never registers. |
| `ObjectKeys.InheritedNameNeverConnects` | src/main.ts:163 | A peer named `constructor` gets no connection from the code as written, but gets one from the corrected registry. |

## Left out

- The DOM is left out: the video elements, buttons, alerts, mute and video toggles, and the `ontrack` handler's rendering of remote streams.
- The WebSocket itself is left out: opening it, its `onerror` and `onclose`, and JSON encoding and decoding. An envelope is received already parsed, and `ws.send` is recorded as a `Transmit` event.
- RTCPeerConnection internals (SDP, ICE gathering, STUN) are left out. Each call is an event on an opaque handle. The settlement of each awaited promise is a parameter.
- The session description sent with an offer or answer is the one passed to setLocalDescription. The browser's `pc.localDescription` is taken to equal it.
- Media acquisition (`getUserMedia`), the environment URLs and the STUN configuration are left out. The local tracks and `myPeerId`, which the source draws with `Math.random`, are constructor parameters.
- The join handler is left out: the room-id trim and empty check, and the state before joining. In that state `ws` is undefined and sendMessage drops everything. The model starts right after joining.
- The model covers one join. The socket's close handler re-enables the join button (src/main.ts:152-153), so the user can join again. A second join keeps `peerConnections` with its open connections, because line 48 runs only once when the page loads. It also keeps `myPeerId` (line 50) and replaces `localStream` (line 75), so later connections get the new tracks. In the model the local tracks are fixed for the client's lifetime, and the empty initial state holds only for the first join.
- The `roomId` field of the envelope is left out, because no core function reads it.
- Numeric and boolean payloads are left out. A payload is undefined, null, a string or an opaque object.
- The handlers are async, and events may interleave in the browser. The model runs each handler to completion on one call.
- The `oniceconnectionstatechange` handler is left out, because its body is commented out and does nothing.
- A connection-state machine, buffering of early candidates, and resolution of simultaneous offers are not modelled. The code has none of them, so the model follows the code.
- `Frontend.Client.GetOrCreatePeerConnection` uses the corrected membership test (`peerId in peers`). The code as written also treats the 12 names that Object.prototype provides as registered. That behaviour is modelled separately by `ObjectKeys.RegisteredAsWritten` (see Findings).
- `new RTCSessionDescription(...)` and `new RTCIceCandidate(...)` are not modelled separately from the call they feed (src/main.ts:234, 252, 263). For an undefined, null or string payload they throw before setRemoteDescription or addIceCandidate is reached. A `SetRemote` or `AddCandidate` event stands for the attempt, constructor included, and a rejected `setRemoteOk` covers that throw.
- In `ObjectKeys`, `handlePeerLeft` for an inherited name is not modelled. The code as written calls `close()` on the inherited property, and that throws.

## Findings

| source | as written | input that shows it | evidently intended | confidence | as-written member | corrected member |
|---|---|---|---|---|---|---|
| src/main.ts:163 | `peerConnections` is a plain object, and `!peerConnections[peerId]` also finds inherited properties such as `constructor`. Those properties are truthy, so no connection is created or stored for such a peer. | A `new-peer` envelope with sender `"constructor"` | Create and register a connection for every peer id not yet registered (a `Map`, or `Object.create(null)`). | not executed | `ObjectKeys.InheritedNameNeverConnects` | `Registry.Registered` |
