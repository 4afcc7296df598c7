/**
 * The signaling client of src/main.ts once it has joined a room: the
 * `peerConnections` dictionary, the socket's ready state, and the per-peer
 * handlers the message handler dispatches to. Every browser call and every
 * envelope handed to the socket is appended to `trace`, in order.
 */
module Frontend {
  import opened Signaling
  import opened Registry

  class Client {
    /** This client's peer id (`myPeerId`). */
    const myPeerId: string
    /** The tracks of the local media stream acquired on joining. */
    const localTracks: seq<Track>
    /** `peerConnections`: one connection per remote peer id. */
    var peers: map<string, Conn>
    /** The relay socket's readyState. */
    var readyState: ReadyState
    /** The browser calls made and envelopes sent so far. */
    var trace: seq<Event>
    /** The serial the next RTCPeerConnection created will carry. */
    var nextSerial: nat

    /** The registry invariant (see Registry.Consistent) over this client's state. */
    ghost predicate Valid()
      reads this
    {
      Consistent(peers, trace, nextSerial, myPeerId) && Distinct(localTracks)
    }

    /** The state right after the first join: media acquired, socket connecting, no peers yet. */
    constructor (myPeerId: string, localTracks: seq<Track>)
      requires Distinct(localTracks)
      ensures Valid()
      ensures this.myPeerId == myPeerId && this.localTracks == localTracks
      ensures peers == map[] && readyState == Connecting && trace == [] && nextSerial == 0
    {
      this.myPeerId := myPeerId;
      this.localTracks := localTracks;
      peers := map[];
      readyState := Connecting;
      trace := [];
      nextSerial := 0;
    }

    /** The browser moves the socket to readyState `state`. */
    method ReadyStateChanged(state: ReadyState)
      requires Valid()
      modifies this`readyState
      ensures Valid() && readyState == state
    {
      readyState := state;
    }

    /** sendMessage: hand `m` to the socket when it is OPEN, otherwise drop it without queueing. */
    method SendMessage(m: Message)
      modifies this`trace
      ensures trace == old(trace) + Sent(readyState, m)
    {
      if readyState == Open {
        trace := trace + [Transmit(m)];
      }
    }

    /** `localStream.getTracks().forEach(track => pc.addTrack(track, localStream))`: attach every local track to `pc`, in order. */
    method AddLocalTracks(pc: Conn)
      modifies this`trace
      ensures trace == old(trace) + Attach(pc, localTracks)
    {
      for i := 0 to |localTracks|
        invariant trace == old(trace) + Attach(pc, localTracks[..i])
      {
        assert Attach(pc, localTracks[..i + 1]) == Attach(pc, localTracks[..i]) + [AddTrack(pc, localTracks[i])];
        trace := trace + [AddTrack(pc, localTracks[i])];
      }
      assert localTracks[..|localTracks|] == localTracks;
    }

    /**
     * `new RTCPeerConnection(...)` followed by attaching every local track: the
     * connection created carries serial `nextSerial`.
     */
    method NewPeerConnection(peerId: string) returns (pc: Conn)
      modifies this`trace
      ensures pc == Conn(nextSerial)
      ensures trace == old(trace) + ([Created(peerId, pc)] + Attach(pc, localTracks))
    {
      pc := Conn(nextSerial);
      trace := trace + [Created(peerId, pc)];
      AddLocalTracks(pc);
    }

    /**
     * getOrCreatePeerConnection: a known peer gets its existing connection and
     * nothing changes; an unknown peer gets a new connection with every local
     * track attached once, registered under exactly that key.
     */
    method GetOrCreatePeerConnection(peerId: string) returns (pc: Conn)
      requires Valid()
      modifies this`peers, this`trace, this`nextSerial
      ensures Valid()
      ensures peers == Registered(old(peers), peerId, Conn(old(nextSerial)))
      ensures pc == peers[peerId]
      ensures trace == old(trace) + Creation(old(peers), peerId, Conn(old(nextSerial)), localTracks)
      ensures nextSerial == if peerId in old(peers) then old(nextSerial) else old(nextSerial) + 1
    {
      if peerId in peers {
        pc := peers[peerId];
        return;
      }
      CreateKeepsConsistent(peers, trace, nextSerial, myPeerId, peerId, localTracks);
      pc := NewPeerConnection(peerId);
      peers := peers[peerId := pc];
      nextSerial := nextSerial + 1;
    }

    /**
     * The awaited part of createAndSendOffer on connection `pc`: create an
     * offer, set it locally and send it to `peerId`; a rejected promise ends
     * it, as the handler's catch does.
     */
    method SendOffer(pc: Conn, peerId: string, r: Replies)
      modifies this`trace
      ensures trace == old(trace) + SendOfferCalls(pc, peerId, myPeerId, r, readyState)
    {
      trace := trace + [CreateOffer(pc)];
      if r.created.Rejected? {
        return;
      }
      var offer := r.created.value;
      trace := trace + [SetLocal(pc, offer)];
      if !r.setLocalOk {
        return;
      }
      SendMessage(Envelope(OfferType, offer, peerId, myPeerId));
    }

    /**
     * createAndSendOffer: make sure a connection exists, create an offer, set
     * it locally and send it to `peerId`. The message handler calls it only
     * with a truthy sender.
     */
    method CreateAndSendOffer(peerId: string, r: Replies)
      requires peerId != ""
      requires Valid()
      modifies this`peers, this`trace, this`nextSerial
      ensures Valid()
      ensures peerId in peers && peers == Registered(old(peers), peerId, Conn(old(nextSerial)))
      ensures trace == old(trace) + Creation(old(peers), peerId, Conn(old(nextSerial)), localTracks)
                       + SendOfferCalls(peers[peerId], peerId, myPeerId, r, readyState)
      ensures nextSerial == if peerId in old(peers) then old(nextSerial) else old(nextSerial) + 1
    {
      var pc := GetOrCreatePeerConnection(peerId);
      SendOfferCallsHarmless(pc, peerId, myPeerId, r, readyState, CreatedIn(trace));
      AppendKeepsConsistent(peers, trace, SendOfferCalls(pc, peerId, myPeerId, r, readyState), nextSerial, myPeerId);
      SendOffer(pc, peerId, r);
    }

    /**
     * The awaited part of handleOffer on connection `pc`: apply the remote
     * offer, create an answer, set it locally and send it to `peerId`; a
     * rejected promise ends it, as the handler's catch does.
     */
    method SendAnswer(pc: Conn, peerId: string, offer: Payload, r: Replies)
      modifies this`trace
      ensures trace == old(trace) + SendAnswerCalls(pc, peerId, myPeerId, offer, r, readyState)
    {
      trace := trace + [SetRemote(pc, offer)];
      if !r.setRemoteOk {
        return;
      }
      trace := trace + [CreateAnswer(pc)];
      if r.created.Rejected? {
        return;
      }
      var answer := r.created.value;
      trace := trace + [SetLocal(pc, answer)];
      if !r.setLocalOk {
        return;
      }
      SendMessage(Envelope(AnswerType, answer, peerId, myPeerId));
    }

    /**
     * handleOffer: make sure a connection exists, apply the remote offer, then
     * create an answer, set it locally and send it to `peerId`; a rejected step
     * ends the handler. The message handler calls it only with a truthy sender.
     */
    method HandleOffer(peerId: string, offer: Payload, r: Replies)
      requires peerId != ""
      requires Valid()
      modifies this`peers, this`trace, this`nextSerial
      ensures Valid()
      ensures peerId in peers && peers == Registered(old(peers), peerId, Conn(old(nextSerial)))
      ensures trace == old(trace) + Creation(old(peers), peerId, Conn(old(nextSerial)), localTracks)
                       + SendAnswerCalls(peers[peerId], peerId, myPeerId, offer, r, readyState)
      ensures nextSerial == if peerId in old(peers) then old(nextSerial) else old(nextSerial) + 1
    {
      var pc := GetOrCreatePeerConnection(peerId);
      SendAnswerCallsHarmless(pc, peerId, myPeerId, offer, r, readyState, CreatedIn(trace));
      AppendKeepsConsistent(peers, trace, SendAnswerCalls(pc, peerId, myPeerId, offer, r, readyState), nextSerial, myPeerId);
      SendAnswer(pc, peerId, offer, r);
    }

    /** handleAnswer: make sure a connection exists and apply the remote answer. */
    method HandleAnswer(peerId: string, answer: Payload)
      requires Valid()
      modifies this`peers, this`trace, this`nextSerial
      ensures Valid()
      ensures peerId in peers && peers == Registered(old(peers), peerId, Conn(old(nextSerial)))
      ensures trace == old(trace) + Creation(old(peers), peerId, Conn(old(nextSerial)), localTracks)
                       + HandleAnswerCalls(peers[peerId], answer)
      ensures nextSerial == if peerId in old(peers) then old(nextSerial) else old(nextSerial) + 1
    {
      var pc := GetOrCreatePeerConnection(peerId);
      AppendKeepsConsistent(peers, trace, HandleAnswerCalls(pc, answer), nextSerial, myPeerId);
      trace := trace + [SetRemote(pc, answer)];
    }

    /** handleCandidate: make sure a connection exists and apply the candidate unless it is falsy. */
    method HandleCandidate(peerId: string, candidate: Payload)
      requires Valid()
      modifies this`peers, this`trace, this`nextSerial
      ensures Valid()
      ensures peerId in peers && peers == Registered(old(peers), peerId, Conn(old(nextSerial)))
      ensures trace == old(trace) + Creation(old(peers), peerId, Conn(old(nextSerial)), localTracks)
                       + HandleCandidateCalls(peers[peerId], candidate)
      ensures nextSerial == if peerId in old(peers) then old(nextSerial) else old(nextSerial) + 1
    {
      var pc := GetOrCreatePeerConnection(peerId);
      AppendKeepsConsistent(peers, trace, HandleCandidateCalls(pc, candidate), nextSerial, myPeerId);
      if PayloadTruthy(candidate) {
        trace := trace + [AddCandidate(pc, candidate)];
      }
    }

    /**
     * handlePeerLeft: close the peer's connection, then delete its key; for an
     * unknown peer nothing is closed and the registry stays as it is.
     */
    method HandlePeerLeft(peerId: string)
      requires Valid()
      modifies this`peers, this`trace
      ensures Valid()
      ensures peers == old(peers) - {peerId}
      ensures trace == old(trace) + if peerId in old(peers) then [Close(old(peers)[peerId])] else []
    {
      if peerId in peers {
        CloseKeepsConsistent(peers, trace, nextSerial, myPeerId, peerId);
        trace := trace + [Close(peers[peerId])];
        peers := peers - {peerId};
      }
    }

    /**
     * The onicecandidate handler of the connection for `peerId`: send every
     * truthy candidate to that peer. The handler lives on that connection,
     * which is registered and, by Valid(), still open (a closed connection
     * fires no events); connections exist only for the truthy senders the
     * message handler accepts.
     */
    method OnIceCandidate(peerId: string, candidate: Payload)
      requires peerId != "" && peerId in peers
      requires Valid()
      modifies this`trace
      ensures Valid()
      ensures trace == old(trace) + OnIceCandidateCalls(peerId, myPeerId, candidate, readyState)
    {
      AppendKeepsConsistent(peers, trace, OnIceCandidateCalls(peerId, myPeerId, candidate, readyState), nextSerial, myPeerId);
      if PayloadTruthy(candidate) {
        SendMessage(Envelope(CandidateType, candidate, peerId, myPeerId));
      }
    }

    /**
     * The socket's message handler: route `m` and run the one handler it
     * selects; `r` is how the browser settles that handler's promises.
     */
    method OnMessage(m: Message, r: Replies)
      requires Valid()
      modifies this`peers, this`trace, this`nextSerial
      ensures Valid()
      ensures peers.Keys == KeysAfter(old(peers).Keys, Route(m, myPeerId))
      // the selected handler makes its calls, on the peer's existing or new connection
      ensures Route(m, myPeerId).Handled() && !Route(m, myPeerId).PeerLeft? ==>
                trace == old(trace) + Creation(old(peers), Route(m, myPeerId).peer, Conn(old(nextSerial)), localTracks)
                         + HandlerCalls(peers[Route(m, myPeerId).peer], Route(m, myPeerId), myPeerId, r, readyState)
      ensures Route(m, myPeerId).PeerLeft? ==>
                trace == old(trace) + if Route(m, myPeerId).peer in old(peers) then [Close(old(peers)[Route(m, myPeerId).peer])] else []
      // the registry after the handler: the peer added, or removed on peer-left,
      // every other entry as it was
      ensures Route(m, myPeerId).Handled() && !Route(m, myPeerId).PeerLeft? ==>
                peers == Registered(old(peers), Route(m, myPeerId).peer, Conn(old(nextSerial)))
                && nextSerial == if Route(m, myPeerId).peer in old(peers) then old(nextSerial) else old(nextSerial) + 1
      ensures Route(m, myPeerId).PeerLeft? ==>
                peers == old(peers) - {Route(m, myPeerId).peer} && nextSerial == old(nextSerial)
      // a dropped message, an echo, a missing sender or an unknown type changes nothing
      ensures !Route(m, myPeerId).Handled() ==>
                peers == old(peers) && trace == old(trace) && nextSerial == old(nextSerial)
      // a handler for a known peer other than peer-left reuses its connection
      ensures Route(m, myPeerId).Handled() && !Route(m, myPeerId).PeerLeft? && Route(m, myPeerId).peer in old(peers) ==>
                peers == old(peers) && nextSerial == old(nextSerial)
      // this client never registers a connection to itself
      ensures myPeerId !in old(peers) ==> myPeerId !in peers
    {
      var a := Route(m, myPeerId);
      match a
      case NewPeer(p) =>
        CreateAndSendOffer(p, r);
      case Offer(p, offer) =>
        HandleOffer(p, offer, r);
      case Answer(p, answer) =>
        HandleAnswer(p, answer);
      case Candidate(p, candidate) =>
        HandleCandidate(p, candidate);
      case PeerLeft(p) =>
        HandlePeerLeft(p);
      case _ =>
    }

    /**
     * The socket delivering `msgs` in order, the browser settling the promises
     * of the handler run for `msgs[i]` as `rs[i]`: the peers with a connection
     * afterwards are those `Replay` gives, so the lemmas about `Replay` hold of
     * the client.
     */
    method OnMessages(msgs: seq<Message>, rs: seq<Replies>)
      requires Valid() && |rs| == |msgs|
      modifies this`peers, this`trace, this`nextSerial
      ensures Valid()
      ensures peers.Keys == Replay(old(peers).Keys, msgs, myPeerId)
    {
      for i := 0 to |msgs|
        invariant Valid()
        invariant peers.Keys == Replay(old(peers).Keys, msgs[..i], myPeerId)
      {
        assert msgs[..i + 1][..i] == msgs[..i];
        OnMessage(msgs[i], rs[i]);
      }
      assert msgs[..|msgs|] == msgs;
    }
  }
}

/**
 * The join of peer-2 as peer-1 sees it: peer-1 hears peer-2 join, creates a
 * connection for it and sends it an offer.
 */
method OfferSentScenario()
{
  var p1 := new Frontend.Client("peer-1", [Registry.Track("mic-1"), Registry.Track("cam-1")]);
  p1.ReadyStateChanged(Registry.Open);
  var ok := Registry.Replies(Registry.Resolved(Signaling.Obj("sdp")), true, true);

  var joined := Signaling.Message(Signaling.NewPeerType, Signaling.Undefined, Signaling.None, Signaling.Some("peer-2"));
  assert Signaling.Route(joined, "peer-1") == Signaling.NewPeer("peer-2");
  p1.OnMessage(joined, ok);
  assert p1.peers.Keys == {"peer-2"};
  var offer := Signaling.Envelope(Signaling.OfferType, Signaling.Obj("sdp"), "peer-2", "peer-1");
  assert p1.trace[|p1.trace| - 1] == Registry.Transmit(offer);
}

/**
 * The same join as peer-2 sees it: peer-1's offer creates a connection for
 * peer-1, and peer-2 sends back its answer.
 */
method AnswerSentScenario()
{
  var p2 := new Frontend.Client("peer-2", [Registry.Track("mic-2")]);
  p2.ReadyStateChanged(Registry.Open);
  var ok := Registry.Replies(Registry.Resolved(Signaling.Obj("sdp")), true, true);

  var offer := Signaling.Envelope(Signaling.OfferType, Signaling.Obj("sdp"), "peer-2", "peer-1");
  assert Signaling.Route(offer, "peer-2") == Signaling.Offer("peer-1", Signaling.Obj("sdp"));
  p2.OnMessage(offer, ok);
  assert p2.peers.Keys == {"peer-1"};
  var answer := Signaling.Envelope(Signaling.AnswerType, Signaling.Obj("sdp"), "peer-1", "peer-2");
  assert p2.trace[|p2.trace| - 1] == Registry.Transmit(answer);
}

/**
 * The end of the join at peer-1: after offering to peer-2, peer-1 applies
 * peer-2's answer to the same connection and creates no other.
 */
method AnswerAppliedScenario()
{
  var p1 := new Frontend.Client("peer-1", [Registry.Track("mic-1")]);
  p1.ReadyStateChanged(Registry.Open);
  var ok := Registry.Replies(Registry.Resolved(Signaling.Obj("sdp")), true, true);

  var joined := Signaling.Message(Signaling.NewPeerType, Signaling.Undefined, Signaling.None, Signaling.Some("peer-2"));
  assert Signaling.Route(joined, "peer-1") == Signaling.NewPeer("peer-2");
  p1.OnMessage(joined, ok);
  var pc := p1.peers["peer-2"];

  var answer := Signaling.Envelope(Signaling.AnswerType, Signaling.Obj("answer-sdp"), "peer-1", "peer-2");
  assert Signaling.Route(answer, "peer-1") == Signaling.Answer("peer-2", Signaling.Obj("answer-sdp"));
  ghost var before := p1.trace;
  assert Registry.Creation(p1.peers, "peer-2", Registry.Conn(p1.nextSerial), p1.localTracks) == [];
  p1.OnMessage(answer, ok);
  assert p1.peers == map["peer-2" := pc];
  assert p1.trace == before + [Registry.SetRemote(pc, Signaling.Obj("answer-sdp"))];
}
