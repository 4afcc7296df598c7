/**
 * Opaque handles for the browser objects the client drives, the calls it makes
 * on them, and the specification of the peer registry (`peerConnections`): how
 * one routed message changes the set of peers with a connection, and what holds
 * after any sequence of messages.
 */
module Registry {
  import opened Signaling

  /** An RTCPeerConnection, identified by the order in which it was created. */
  datatype Conn = Conn(serial: nat)

  /** A track of the local media stream. */
  datatype Track = Track(id: string)

  /** A browser call the client makes, or an envelope it hands to the open socket. */
  datatype Event =
    | Created(peer: string, conn: Conn)                // new RTCPeerConnection for `peer`
    | AddTrack(conn: Conn, track: Track)               // pc.addTrack(track, localStream)
    | CreateOffer(conn: Conn)                          // pc.createOffer()
    | CreateAnswer(conn: Conn)                         // pc.createAnswer()
    | SetLocal(conn: Conn, desc: Payload)              // pc.setLocalDescription(desc)
    | SetRemote(conn: Conn, desc: Payload)             // pc.setRemoteDescription(desc)
    | AddCandidate(conn: Conn, candidate: Payload)     // pc.addIceCandidate(candidate)
    | Close(conn: Conn)                                // pc.close()
    | Transmit(msg: Message)                           // ws.send(JSON.stringify(msg))

  /** How the browser settles a promise that yields a session description. */
  datatype Reply = Resolved(value: Payload) | Rejected

  /**
   * The settlement of the promises one handler awaits: `created` for
   * createOffer or createAnswer, and whether setRemoteDescription and
   * setLocalDescription resolve.
   */
  datatype Replies = Replies(created: Reply, setRemoteOk: bool, setLocalOk: bool)

  /** The WebSocket readyState values. */
  datatype ReadyState = Connecting | Open | Closing | Closed

  /** Whether event `e` refers only to connections with a serial below `bound`. */
  predicate Below(e: Event, bound: nat) {
    e.Transmit? || e.conn.serial < bound
  }

  /** The addTrack calls that attach `tracks`, in order, to connection `pc`. */
  function Attach(pc: Conn, tracks: seq<Track>): (r: seq<Event>)
  {
    seq(|tracks|, i requires 0 <= i < |tracks| => AddTrack(pc, tracks[i]))
  }

  /** Each local track is attached exactly as often as it occurs in the stream, and to `pc` only. */
  lemma {:induction false} AttachEachTrackOnce(pc: Conn, tracks: seq<Track>)
    ensures forall t :: multiset(Attach(pc, tracks))[AddTrack(pc, t)] == multiset(tracks)[t]
    ensures forall e :: e in Attach(pc, tracks) ==> e.AddTrack? && e.conn == pc && e.track in tracks
  {
    if tracks != [] {
      var n := |tracks| - 1;
      AttachEachTrackOnce(pc, tracks[..n]);
      assert Attach(pc, tracks) == Attach(pc, tracks[..n]) + [AddTrack(pc, tracks[n])];
      assert tracks == tracks[..n] + [tracks[n]];
    }
  }

  /** No track occurs twice: `getTracks()` lists each track of the stream once. */
  predicate Distinct(tracks: seq<Track>) {
    forall i, j :: 0 <= i < j < |tracks| ==> tracks[i] != tracks[j]
  }

  /** Each of distinct tracks occurs once in the stream. */
  lemma {:induction false} DistinctOccursOnce(tracks: seq<Track>)
    requires Distinct(tracks)
    ensures forall t :: t in tracks ==> multiset(tracks)[t] == 1
  {
    if tracks != [] {
      var k := |tracks| - 1;
      var front := tracks[..k];
      DistinctOccursOnce(front);
      assert tracks == front + [tracks[k]];
      assert multiset(tracks) == multiset(front) + multiset{tracks[k]};
      assert tracks[k] !in front;
    }
  }

  /** Of distinct tracks, each is attached to `pc` exactly once. */
  lemma AttachDistinctOnce(pc: Conn, tracks: seq<Track>)
    requires Distinct(tracks)
    ensures forall t :: t in tracks ==> multiset(Attach(pc, tracks))[AddTrack(pc, t)] == 1
  {
    AttachEachTrackOnce(pc, tracks);
    DistinctOccursOnce(tracks);
  }

  /** The registry after getOrCreatePeerConnection(peerId), `newConn` being the connection it would create. */
  function Registered(peers: map<string, Conn>, peerId: string, newConn: Conn): (r: map<string, Conn>)
    ensures r.Keys == peers.Keys + {peerId}
    ensures forall p :: p in peers ==> p in r && r[p] == peers[p]
    ensures peerId !in peers ==> r[peerId] == newConn
  {
    if peerId in peers then peers else peers[peerId := newConn]
  }

  /** The calls getOrCreatePeerConnection(peerId) makes: none for a known peer, else create and attach. */
  function Creation(peers: map<string, Conn>, peerId: string, newConn: Conn, tracks: seq<Track>): seq<Event>
  {
    if peerId in peers then [] else [Created(peerId, newConn)] + Attach(newConn, tracks)
  }

  /** What sendMessage does with `m`: hand it to the socket when it is open, otherwise drop it. */
  function Sent(state: ReadyState, m: Message): seq<Event>
  {
    if state == Open then [Transmit(m)] else []
  }

  /**
   * The calls createAndSendOffer makes once it holds the connection `pc`:
   * createOffer; when it resolves, setLocalDescription; when that resolves,
   * the offer goes to sendMessage.
   */
  function SendOfferCalls(pc: Conn, peerId: string, myPeerId: string, r: Replies, state: ReadyState): seq<Event>
  {
    match r.created
    case Rejected => [CreateOffer(pc)]
    case Resolved(offer) =>
      if !r.setLocalOk then [CreateOffer(pc), SetLocal(pc, offer)]
      else [CreateOffer(pc), SetLocal(pc, offer)] + Sent(state, Envelope(OfferType, offer, peerId, myPeerId))
  }

  /**
   * The calls handleOffer makes once it holds the connection `pc`:
   * setRemoteDescription(offer); when it resolves, createAnswer; when that
   * resolves, setLocalDescription; when that resolves, the answer goes to
   * sendMessage.
   */
  function SendAnswerCalls(pc: Conn, peerId: string, myPeerId: string, offer: Payload, r: Replies, state: ReadyState): seq<Event>
  {
    if !r.setRemoteOk then [SetRemote(pc, offer)]
    else match r.created
      case Rejected => [SetRemote(pc, offer), CreateAnswer(pc)]
      case Resolved(answer) =>
        if !r.setLocalOk then [SetRemote(pc, offer), CreateAnswer(pc), SetLocal(pc, answer)]
        else [SetRemote(pc, offer), CreateAnswer(pc), SetLocal(pc, answer)]
             + Sent(state, Envelope(AnswerType, answer, peerId, myPeerId))
  }

  /** The call handleAnswer makes once it holds the connection `pc`. */
  function HandleAnswerCalls(pc: Conn, answer: Payload): seq<Event>
  {
    [SetRemote(pc, answer)]
  }

  /** The calls handleCandidate makes once it holds the connection `pc`: a falsy candidate is skipped. */
  function HandleCandidateCalls(pc: Conn, candidate: Payload): seq<Event>
  {
    if PayloadTruthy(candidate) then [AddCandidate(pc, candidate)] else []
  }

  /** What the onicecandidate handler of the connection for `peerId` sends for `candidate`. */
  function OnIceCandidateCalls(peerId: string, myPeerId: string, candidate: Payload, state: ReadyState): seq<Event>
  {
    if PayloadTruthy(candidate) then Sent(state, Envelope(CandidateType, candidate, peerId, myPeerId)) else []
  }

  /**
   * Every envelope the handlers hand to the socket is addressed to the peer
   * they serve and signed by this client, is of the handler's own type, and
   * leaves only while the socket is open; a falsy candidate is neither
   * applied nor sent.
   */
  lemma {:induction false} OutboundAddressing(pc: Conn, peerId: string, myPeerId: string, d: Payload, r: Replies, state: ReadyState)
    ensures forall e :: e in SendOfferCalls(pc, peerId, myPeerId, r, state) && e.Transmit? ==>
              state == Open && e.msg.kind == OfferType && e.msg.target == Some(peerId) && e.msg.sender == Some(myPeerId)
    ensures forall e :: e in SendAnswerCalls(pc, peerId, myPeerId, d, r, state) && e.Transmit? ==>
              state == Open && e.msg.kind == AnswerType && e.msg.target == Some(peerId) && e.msg.sender == Some(myPeerId)
    ensures forall e :: e in OnIceCandidateCalls(peerId, myPeerId, d, state) ==>
              state == Open && PayloadTruthy(d) && e == Transmit(Message(CandidateType, d, Some(peerId), Some(myPeerId)))
    ensures !PayloadTruthy(d) ==> HandleCandidateCalls(pc, d) == [] && OnIceCandidateCalls(peerId, myPeerId, d, state) == []
  {
  }

  /** The calls the handler selected by `a` makes once it holds the connection `pc`. */
  function HandlerCalls(pc: Conn, a: Action, myPeerId: string, r: Replies, state: ReadyState): seq<Event>
    requires a.Handled() && !a.PeerLeft?
  {
    match a
    case NewPeer(p) => SendOfferCalls(pc, p, myPeerId, r, state)
    case Offer(p, offer) => SendAnswerCalls(pc, p, myPeerId, offer, r, state)
    case Answer(_, answer) => HandleAnswerCalls(pc, answer)
    case Candidate(_, candidate) => HandleCandidateCalls(pc, candidate)
  }

  /** The connections that the calls in `t` create. */
  function CreatedIn(t: seq<Event>): set<Conn>
  {
    if t == [] then {}
    else CreatedIn(t[..|t| - 1]) + (if t[|t| - 1].Created? then {t[|t| - 1].conn} else {})
  }

  /** The connections that the calls in `t` close. */
  function ClosedIn(t: seq<Event>): set<Conn>
  {
    if t == [] then {}
    else ClosedIn(t[..|t| - 1]) + (if t[|t| - 1].Close? then {t[|t| - 1].conn} else {})
  }

  /**
   * A call that neither creates nor closes a connection: a call on one of the
   * `created` connections, or an envelope signed by `myPeerId` whose target
   * is present.
   */
  predicate Harmless(e: Event, created: set<Conn>, myPeerId: string) {
    && !e.Created? && !e.Close?
    && (if e.Transmit? then e.msg.sender == Some(myPeerId) && Present(e.msg.target) else e.conn in created)
  }

  /**
   * The call trace `t`, one call at a time: a connection is created once,
   * with a serial below `n`; every other call on a connection comes after its
   * creation; a connection is closed at most once; and every envelope is
   * signed by `myPeerId` and names a present target.
   */
  ghost predicate WellFormed(t: seq<Event>, n: nat, myPeerId: string) {
    t == [] ||
    (var before, e := t[..|t| - 1], t[|t| - 1];
     && WellFormed(before, n, myPeerId)
     && (if e.Created? then e.conn.serial < n && e.conn !in CreatedIn(before)
         else if e.Close? then e.conn in CreatedIn(before) && e.conn !in ClosedIn(before)
         else Harmless(e, CreatedIn(before), myPeerId)))
  }

  /**
   * The registry invariant over `peers`, the call trace and the next
   * connection serial `n`: every registered connection was created for its
   * peer and is still open; every connection created and not yet closed is
   * registered, so none leaks; no connection serves two peers; and the trace
   * is well formed.
   */
  ghost predicate Consistent(peers: map<string, Conn>, trace: seq<Event>, n: nat, myPeerId: string) {
    && (forall p :: p in peers ==>
          Created(p, peers[p]) in trace && peers[p] in CreatedIn(trace) && peers[p] !in ClosedIn(trace))
    && CreatedIn(trace) - ClosedIn(trace) <= peers.Values
    && (forall p, q :: p in peers && q in peers && p != q ==> peers[p] != peers[q])
    && WellFormed(trace, n, myPeerId)
  }

  /** `ClosedIn(t)` holds exactly the connections some call in `t` closes. */
  lemma {:induction false} ClosedInExactly(t: seq<Event>)
    ensures forall c :: c in ClosedIn(t) <==> Close(c) in t
  {
    if t != [] {
      var k := |t| - 1;
      ClosedInExactly(t[..k]);
      assert t == t[..k] + [t[k]];
    }
  }

  /** A connection in `CreatedIn(t)` has a creation call in `t`, at index `j`. */
  lemma {:induction false} CreatedAt(t: seq<Event>, c: Conn) returns (j: nat)
    requires c in CreatedIn(t)
    ensures j < |t| && t[j].Created? && t[j].conn == c
  {
    var k := |t| - 1;
    if t[k].Created? && t[k].conn == c {
      j := k;
    } else {
      j := CreatedAt(t[..k], c);
    }
  }

  /** Every creation call in `t` puts its connection in `CreatedIn(t)`. */
  lemma {:induction false} CreatedInHas(t: seq<Event>, i: nat)
    requires i < |t| && t[i].Created?
    ensures t[i].conn in CreatedIn(t)
  {
    var k := |t| - 1;
    if i < k {
      CreatedInHas(t[..k], i);
    }
  }

  /**
   * What a well-formed trace guarantees of each call: it names a connection
   * below `n`; a call on a connection other than its creation comes after
   * that creation; and an envelope is signed by this client and names a
   * present target.
   */
  lemma {:induction false} WellFormedMeans(t: seq<Event>, n: nat, myPeerId: string)
    requires WellFormed(t, n, myPeerId)
    ensures forall i :: 0 <= i < |t| ==> Below(t[i], n)
    ensures forall i :: 0 <= i < |t| && !t[i].Transmit? && !t[i].Created? ==>
              exists j :: 0 <= j < i && t[j].Created? && t[j].conn == t[i].conn
    ensures forall i :: 0 <= i < |t| && t[i].Transmit? ==>
              t[i].msg.sender == Some(myPeerId) && Present(t[i].msg.target)
  {
    if t != [] {
      var k := |t| - 1;
      var before := t[..k];
      WellFormedMeans(before, n, myPeerId);
      WellFormedRaise(before, n, myPeerId);
      forall i | 0 <= i < k
        ensures t[i] == before[i]
      {
      }
      if !t[k].Transmit? && !t[k].Created? {
        var j := CreatedAt(before, t[k].conn);
        assert t[j] == before[j];
      }
    }
  }

  /** In a well-formed trace no connection is created twice, and none is closed twice. */
  lemma {:induction false} NothingTwice(t: seq<Event>, n: nat, myPeerId: string)
    requires WellFormed(t, n, myPeerId)
    ensures forall i, j :: 0 <= i < j < |t| && t[i].Created? && t[j].Created? ==> t[j].conn != t[i].conn
    ensures forall i, j :: 0 <= i < j < |t| && t[i].Close? ==> t[j] != t[i]
  {
    if t != [] {
      var k := |t| - 1;
      var before := t[..k];
      NothingTwice(before, n, myPeerId);
      ClosedInExactly(before);
      forall i | 0 <= i < k
        ensures t[i] == before[i]
      {
      }
      forall i | 0 <= i < k && t[i].Created? && t[k].Created?
        ensures t[k].conn != t[i].conn
      {
        CreatedInHas(before, i);
      }
      forall i | 0 <= i < k && t[i].Close?
        ensures t[k] != t[i]
      {
        assert before[i] == t[i];
      }
    }
  }

  /**
   * A trace well formed for `n` is well formed for `n + 1`; it creates only
   * connections below `n` and closes only connections it created.
   */
  lemma {:induction false} WellFormedRaise(t: seq<Event>, n: nat, myPeerId: string)
    requires WellFormed(t, n, myPeerId)
    ensures WellFormed(t, n + 1, myPeerId)
    ensures forall c :: c in CreatedIn(t) ==> c.serial < n
    ensures ClosedIn(t) <= CreatedIn(t)
  {
    if t != [] {
      WellFormedRaise(t[..|t| - 1], n, myPeerId);
    }
  }

  /** Appending harmless calls keeps a trace well formed and creates and closes nothing more. */
  lemma {:induction false} AppendHarmless(t: seq<Event>, added: seq<Event>, n: nat, myPeerId: string)
    requires WellFormed(t, n, myPeerId)
    requires forall i :: 0 <= i < |added| ==> Harmless(added[i], CreatedIn(t), myPeerId)
    ensures WellFormed(t + added, n, myPeerId)
    ensures CreatedIn(t + added) == CreatedIn(t) && ClosedIn(t + added) == ClosedIn(t)
  {
    if added == [] {
      assert t + added == t;
    } else {
      var k := |added| - 1;
      AppendHarmless(t, added[..k], n, myPeerId);
      assert (t + added)[..|t + added| - 1] == t + added[..k];
      assert (t + added)[|t + added| - 1] == added[k];
    }
  }

  /**
   * Appending calls on created connections and signed, addressed envelopes,
   * none of which creates or closes a connection, keeps the invariant.
   */
  lemma AppendKeepsConsistent(peers: map<string, Conn>, trace: seq<Event>, added: seq<Event>, n: nat, myPeerId: string)
    requires Consistent(peers, trace, n, myPeerId)
    requires forall i :: 0 <= i < |added| ==> Harmless(added[i], CreatedIn(trace), myPeerId)
    ensures Consistent(peers, trace + added, n, myPeerId)
  {
    AppendHarmless(trace, added, n, myPeerId);
  }

  /** Creating a connection never created before, with a serial below `n`, keeps a trace well formed. */
  lemma AppendCreated(t: seq<Event>, peerId: string, c: Conn, n: nat, myPeerId: string)
    requires WellFormed(t, n, myPeerId) && c.serial < n && c !in CreatedIn(t)
    ensures WellFormed(t + [Created(peerId, c)], n, myPeerId)
    ensures CreatedIn(t + [Created(peerId, c)]) == CreatedIn(t) + {c}
    ensures ClosedIn(t + [Created(peerId, c)]) == ClosedIn(t)
  {
  }

  /** Creating connection `Conn(n)` and attaching tracks to it keeps a trace well formed, counting to `n + 1`. */
  lemma CreationWellFormed(t: seq<Event>, peerId: string, n: nat, myPeerId: string, tracks: seq<Track>)
    requires WellFormed(t, n, myPeerId)
    ensures WellFormed(t + ([Created(peerId, Conn(n))] + Attach(Conn(n), tracks)), n + 1, myPeerId)
    ensures CreatedIn(t + ([Created(peerId, Conn(n))] + Attach(Conn(n), tracks))) == CreatedIn(t) + {Conn(n)}
    ensures ClosedIn(t + ([Created(peerId, Conn(n))] + Attach(Conn(n), tracks))) == ClosedIn(t)
    ensures forall c :: c in CreatedIn(t) ==> c.serial < n
    ensures ClosedIn(t) <= CreatedIn(t)
  {
    var conn := Conn(n);
    WellFormedRaise(t, n, myPeerId);
    var t1 := t + [Created(peerId, conn)];
    AppendCreated(t, peerId, conn, n + 1, myPeerId);
    AppendHarmless(t1, Attach(conn, tracks), n + 1, myPeerId);
    assert t + ([Created(peerId, conn)] + Attach(conn, tracks)) == t1 + Attach(conn, tracks);
  }

  /** getOrCreatePeerConnection for an unknown peer keeps the invariant. */
  lemma CreateKeepsConsistent(peers: map<string, Conn>, trace: seq<Event>, n: nat, myPeerId: string, peerId: string, tracks: seq<Track>)
    requires Consistent(peers, trace, n, myPeerId) && peerId !in peers
    ensures Consistent(peers[peerId := Conn(n)], trace + Creation(peers, peerId, Conn(n), tracks), n + 1, myPeerId)
  {
    var conn := Conn(n);
    var added := [Created(peerId, conn)] + Attach(conn, tracks);
    assert Creation(peers, peerId, conn, tracks) == added;
    CreationWellFormed(trace, peerId, n, myPeerId, tracks);
    var t2 := trace + added;
    var after := peers[peerId := conn];
    forall p | p in after
      ensures Created(p, after[p]) in t2
    {
      if p == peerId {
        assert t2[|trace|] == Created(peerId, conn);
      } else {
        assert Created(p, peers[p]) in trace;
      }
    }
    forall d | d in peers.Values + {conn}
      ensures d in after.Values
    {
      if d == conn {
        assert after[peerId] == d;
      } else {
        var q :| q in peers && peers[q] == d;
        assert after[q] == d;
      }
    }
  }

  /** No connection leaks: one the trace creates and never closes is registered to some peer. */
  lemma OpenIsRegistered(peers: map<string, Conn>, trace: seq<Event>, n: nat, myPeerId: string, i: nat)
    requires Consistent(peers, trace, n, myPeerId)
    requires i < |trace| && trace[i].Created? && Close(trace[i].conn) !in trace
    ensures exists p :: p in peers && peers[p] == trace[i].conn
  {
    CreatedInHas(trace, i);
    ClosedInExactly(trace);
    assert trace[i].conn in peers.Values;
  }

  /** handlePeerLeft for a registered peer keeps the invariant. */
  lemma CloseKeepsConsistent(peers: map<string, Conn>, trace: seq<Event>, n: nat, myPeerId: string, peerId: string)
    requires Consistent(peers, trace, n, myPeerId) && peerId in peers
    ensures Consistent(peers - {peerId}, trace + [Close(peers[peerId])], n, myPeerId)
  {
    var c := peers[peerId];
    assert c in peers.Values;
    var t := trace + [Close(c)];
    assert t[..|t| - 1] == trace;
    var after := peers - {peerId};
    forall d | d in peers.Values && d != c
      ensures d in after.Values
    {
      var q :| q in peers && peers[q] == d;
      assert after[q] == d;
    }
  }

  /**
   * The calls createAndSendOffer makes on its connection `pc` touch only `pc`,
   * create and close nothing, and send only a signed, addressed envelope.
   */
  lemma SendOfferCallsHarmless(pc: Conn, peerId: string, myPeerId: string, r: Replies, state: ReadyState, created: set<Conn>)
    requires pc in created && peerId != ""
    ensures forall e :: e in SendOfferCalls(pc, peerId, myPeerId, r, state) ==> e.Transmit? || e.conn == pc
    ensures forall i :: 0 <= i < |SendOfferCalls(pc, peerId, myPeerId, r, state)| ==>
              Harmless(SendOfferCalls(pc, peerId, myPeerId, r, state)[i], created, myPeerId)
  {
  }

  /**
   * The calls handleOffer makes on its connection `pc` touch only `pc`,
   * create and close nothing, and send only a signed, addressed envelope.
   */
  lemma SendAnswerCallsHarmless(pc: Conn, peerId: string, myPeerId: string, offer: Payload, r: Replies, state: ReadyState, created: set<Conn>)
    requires pc in created && peerId != ""
    ensures forall e :: e in SendAnswerCalls(pc, peerId, myPeerId, offer, r, state) ==> e.Transmit? || e.conn == pc
    ensures forall i :: 0 <= i < |SendAnswerCalls(pc, peerId, myPeerId, offer, r, state)| ==>
              Harmless(SendAnswerCalls(pc, peerId, myPeerId, offer, r, state)[i], created, myPeerId)
  {
  }

  /** The set of peers with a connection after the client acts on `a`. */
  function KeysAfter(keys: set<string>, a: Action): set<string>
  {
    if !a.Handled() then keys
    else if a.PeerLeft? then keys - {a.peer}
    else keys + {a.peer}
  }

  /** The set of peers with a connection after the client at `myPeerId` receives `msgs` in order. */
  function Replay(keys: set<string>, msgs: seq<Message>, myPeerId: string): set<string>
  {
    if msgs == [] then keys
    else KeysAfter(Replay(keys, msgs[..|msgs| - 1], myPeerId), Route(msgs[|msgs| - 1], myPeerId))
  }

  /** Whether message `m` runs a handler for peer `p` at client `myPeerId`. */
  predicate Touches(m: Message, p: string, myPeerId: string) {
    Route(m, myPeerId).Handled() && Route(m, myPeerId).peer == p
  }

  /** The client never holds a connection to itself, nor to an empty peer id. */
  lemma {:induction false} NoSelfConnection(keys: set<string>, msgs: seq<Message>, myPeerId: string)
    requires myPeerId !in keys && "" !in keys
    ensures myPeerId !in Replay(keys, msgs, myPeerId) && "" !in Replay(keys, msgs, myPeerId)
  {
    if msgs != [] {
      NoSelfConnection(keys, msgs[..|msgs| - 1], myPeerId);
    }
  }

  /** A peer none of `msgs` touches keeps its membership. */
  lemma {:induction false} UntouchedKeepsMembership(keys: set<string>, msgs: seq<Message>, myPeerId: string, p: string)
    requires forall j :: 0 <= j < |msgs| ==> !Touches(msgs[j], p, myPeerId)
    ensures p in Replay(keys, msgs, myPeerId) <==> p in keys
  {
    if msgs != [] {
      var n := |msgs| - 1;
      UntouchedKeepsMembership(keys, msgs[..n], myPeerId, p);
      assert !Touches(msgs[n], p, myPeerId);
    }
  }

  /**
   * After a new-peer, offer, answer or candidate message from `p`, the client
   * holds a connection to `p` until a peer-left message from `p` arrives, even
   * when `p` was unknown before.
   */
  lemma {:induction false} PresentUntilLeft(keys: set<string>, msgs: seq<Message>, myPeerId: string, i: nat)
    requires i < |msgs|
    requires Route(msgs[i], myPeerId).Handled() && !Route(msgs[i], myPeerId).PeerLeft?
    requires forall j :: i < j < |msgs| ==> Route(msgs[j], myPeerId) != PeerLeft(Route(msgs[i], myPeerId).peer)
    ensures Route(msgs[i], myPeerId).peer in Replay(keys, msgs, myPeerId)
  {
    var n := |msgs| - 1;
    if i < n {
      PresentUntilLeft(keys, msgs[..n], myPeerId, i);
    }
  }

  /** After a peer-left message from `p`, the client holds no connection to `p` until `p` is heard from again. */
  lemma {:induction false} AbsentAfterLeft(keys: set<string>, msgs: seq<Message>, myPeerId: string, i: nat)
    requires i < |msgs| && Route(msgs[i], myPeerId).PeerLeft?
    requires forall j :: i < j < |msgs| ==> !Touches(msgs[j], Route(msgs[i], myPeerId).peer, myPeerId)
    ensures Route(msgs[i], myPeerId).peer !in Replay(keys, msgs, myPeerId)
  {
    var n := |msgs| - 1;
    if i < n {
      AbsentAfterLeft(keys, msgs[..n], myPeerId, i);
    }
  }

  /** Delivering the same message twice in a row leaves the same peers connected as delivering it once. */
  lemma {:induction false} DuplicateDelivery(keys: set<string>, msgs: seq<Message>, m: Message, myPeerId: string)
    ensures Replay(keys, msgs + [m, m], myPeerId) == Replay(keys, msgs + [m], myPeerId)
  {
    assert (msgs + [m, m])[..|msgs| + 1] == msgs + [m];
    assert (msgs + [m])[..|msgs|] == msgs;
  }
}
