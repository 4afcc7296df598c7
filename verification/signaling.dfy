/**
 * The relay envelope of the video-conference client (src/main.ts) and the
 * decision its socket message handler takes for each decoded envelope: drop
 * it, or run exactly one per-peer handler keyed by the envelope's sender.
 */
module Signaling {

  datatype Option<T> = None | Some(value: T)

  /**
   * A `payload` field as JSON.parse leaves it. Session descriptions and ICE
   * candidates are objects that signaling never looks into; `Obj` stands for
   * one of them by an opaque text.
   */
  datatype Payload = Undefined | Null | Str(s: string) | Obj(text: string)

  /** JavaScript truthiness of a payload: undefined, null and "" are falsy. */
  predicate PayloadTruthy(p: Payload) {
    match p
    case Undefined => false
    case Null => false
    case Str(s) => s != ""
    case Obj(_) => true
  }

  /** Truthiness of an optional string field (`target`, `sender`): absent and "" are falsy. */
  predicate Present(f: Option<string>) {
    f.Some? && f.value != ""
  }

  /** A signaling envelope: `type` (here `kind`), `payload`, `target`, `sender`. */
  datatype Message = Message(kind: string, payload: Payload, target: Option<string>, sender: Option<string>)

  const NewPeerType: string := "new-peer"
  const OfferType: string := "offer"
  const AnswerType: string := "answer"
  const CandidateType: string := "candidate"
  const PeerLeftType: string := "peer-left"

  /** The five message types the handler's switch has a case for. */
  predicate IsKnownKind(kind: string) {
    kind == NewPeerType || kind == OfferType || kind == AnswerType
    || kind == CandidateType || kind == PeerLeftType
  }

  /** What the message handler does with one envelope. */
  datatype Action =
    | NotForMe                                  // addressed to somebody else: dropped before the switch
    | OwnEcho                                   // a known type sent by this very client: skipped
    | SenderMissing                             // a known type without a sender: the handler throws
    | Unknown(kind: string)                     // the switch's default case: only logged
    | NewPeer(peer: string)                     // createAndSendOffer(peer)
    | Offer(peer: string, payload: Payload)     // handleOffer(peer, payload)
    | Answer(peer: string, payload: Payload)    // handleAnswer(peer, payload)
    | Candidate(peer: string, payload: Payload) // handleCandidate(peer, payload)
    | PeerLeft(peer: string)                    // handlePeerLeft(peer)
  {
    /** True when the action runs one of the five per-peer handlers. */
    predicate Handled() {
      NewPeer? || Offer? || Answer? || Candidate? || PeerLeft?
    }

    /** The message type whose switch case runs this handler. */
    function TypeName(): string
      requires Handled()
    {
      match this
      case NewPeer(_) => NewPeerType
      case Offer(_, _) => OfferType
      case Answer(_, _) => AnswerType
      case Candidate(_, _) => CandidateType
      case PeerLeft(_) => PeerLeftType
    }
  }

  /** The handler a known message type selects, keyed by the peer that sent it. */
  function Dispatch(kind: string, peer: string, payload: Payload): (a: Action)
    requires IsKnownKind(kind)
    ensures a.Handled() && a.peer == peer && a.TypeName() == kind
    ensures (a.Offer? || a.Answer? || a.Candidate?) ==> a.payload == payload
    ensures a.Offer? || a.Answer? || a.Candidate? <==> kind == OfferType || kind == AnswerType || kind == CandidateType
  {
    if kind == NewPeerType then NewPeer(peer)
    else if kind == OfferType then Offer(peer, payload)
    else if kind == AnswerType then Answer(peer, payload)
    else if kind == CandidateType then Candidate(peer, payload)
    else PeerLeft(peer)
  }

  /**
   * The target filter: a message whose target is set and is not this client
   * is dropped, unless it announces a peer joining or leaving.
   */
  predicate AddressedElsewhere(m: Message, myPeerId: string) {
    Present(m.target) && m.target.value != myPeerId && m.kind != PeerLeftType && m.kind != NewPeerType
  }

  /** The decision the socket message handler takes for message `m` at client `myPeerId`. */
  function Route(m: Message, myPeerId: string): (a: Action)
    // the target filter drops exactly the messages addressed to someone else
    ensures a == NotForMe <==> AddressedElsewhere(m, myPeerId)
    // a handler runs exactly when the filter passes, the type is known and a
    // sender other than this client is named
    ensures a.Handled() <==>
              !AddressedElsewhere(m, myPeerId) && IsKnownKind(m.kind)
              && Present(m.sender) && m.sender.value != myPeerId
    // and it is the one handler of that type, keyed by the sender
    ensures a.Handled() ==>
              m.sender == Some(a.peer) && a.peer != myPeerId && a.peer != ""
              && a.TypeName() == m.kind && a == Dispatch(m.kind, a.peer, m.payload)
    // messages this client sent itself reach no handler
    ensures m.sender == Some(myPeerId) ==> !a.Handled()
    // unrecognised types reach no handler
    ensures !IsKnownKind(m.kind) ==> !a.Handled()
    ensures a.Unknown? <==> !AddressedElsewhere(m, myPeerId) && !IsKnownKind(m.kind)
    // a known type from a sender other than this client, but with no sender
    // set, makes the handler throw; this client's own echo is skipped instead
    ensures a == SenderMissing <==>
              !AddressedElsewhere(m, myPeerId) && IsKnownKind(m.kind)
              && m.sender != Some(myPeerId) && !Present(m.sender)
    ensures a == OwnEcho <==>
              !AddressedElsewhere(m, myPeerId) && IsKnownKind(m.kind) && m.sender == Some(myPeerId)
  {
    if AddressedElsewhere(m, myPeerId) then NotForMe
    else if !IsKnownKind(m.kind) then Unknown(m.kind)
    else if m.sender == Some(myPeerId) then OwnEcho
    else if !Present(m.sender) then SenderMissing
    else Dispatch(m.kind, m.sender.value, m.payload)
  }

  /**
   * The envelope built for sendMessage by createAndSendOffer, handleOffer and
   * the ICE candidate emitter: addressed to `peerId`, signed by `myPeerId`.
   */
  function Envelope(kind: string, payload: Payload, peerId: string, myPeerId: string): (m: Message)
    // delivered to its target, it runs the handler of its type keyed by this client
    ensures IsKnownKind(kind) && myPeerId != "" && myPeerId != peerId ==>
              Route(m, peerId) == Dispatch(kind, myPeerId, payload)
    // an offer, answer or candidate with a non-empty target is dropped by every other client
    ensures kind != NewPeerType && kind != PeerLeftType && peerId != "" ==>
              forall other :: other != peerId ==> Route(m, other) == NotForMe
    // echoed back to its sender, it reaches no handler
    ensures !Route(m, myPeerId).Handled()
  {
    Message(kind, payload, Some(peerId), Some(myPeerId))
  }
}
