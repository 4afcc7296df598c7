/**
 * `peerConnections` is a plain JavaScript object, so `peerConnections[peerId]`
 * also finds the properties every object inherits from Object.prototype.
 * These are functions or objects, and so truthy. The existence test of
 * getOrCreatePeerConnection therefore treats such a peer id as already
 * connected, and creates nothing for it.
 */
module ObjectKeys {
  import opened Registry

  /** The property names a plain object inherits from Object.prototype. */
  const InheritedNames: set<string> := {
    "constructor", "hasOwnProperty", "isPrototypeOf", "propertyIsEnumerable",
    "toLocaleString", "toString", "valueOf", "__proto__",
    "__defineGetter__", "__defineSetter__", "__lookupGetter__", "__lookupSetter__"
  }

  /** `!peerConnections[peerId]` as written: true only for a name that is neither an own nor an inherited property. */
  predicate LooksMissing(peers: map<string, Conn>, peerId: string) {
    peerId !in peers && peerId !in InheritedNames
  }

  /** The registry after getOrCreatePeerConnection(peerId) as written, `newConn` being the connection it would create. */
  function RegisteredAsWritten(peers: map<string, Conn>, peerId: string, newConn: Conn): (r: map<string, Conn>)
    ensures peerId !in InheritedNames ==> r == Registered(peers, peerId, newConn)
    ensures peerId in InheritedNames ==> r == peers
  {
    if LooksMissing(peers, peerId) then peers[peerId := newConn] else peers
  }

  /**
   * A new-peer, offer, answer or candidate message from a peer whose id is
   * "constructor" leaves that peer without a connection, where the corrected
   * lookup registers it.
   */
  lemma InheritedNameNeverConnects()
    ensures "constructor" !in RegisteredAsWritten(map[], "constructor", Conn(0))
    ensures "constructor" in Registered(map[], "constructor", Conn(0))
  {
  }
}
