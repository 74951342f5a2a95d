// The freeDiameter peer table as the routing-preference scorer sees it.
//
// The table itself belongs to the host daemon; the scorer only asks it for
// the capability record of one peer, by Diameter identity, through
// `fd_peer_getbyid`.  That call has three outcomes: it fails with an error
// code, it succeeds without finding the peer, or it returns the peer.
module PeerRegistry {

  /** A Diameter identity (`DiamId_t` with its length): the FQDN of a peer. */
  type DiamId = seq<char>

  /** An Application Identifier (`application_id_t`, an unsigned 32-bit value). */
  type AppId = x: int | 0 <= x < 0x1_0000_0000

  /** The part of a peer's runtime information that the scorer reads:
      `pir_relay`, an integer flag set when the peer advertised the Relay
      application, and `pir_apps`, the applications it advertised, in order. */
  datatype PeerInfo = PeerInfo(relay: int, apps: seq<AppId>)

  /** The peer table: the peers it knows, and the identities for which the
      lookup itself reports an error (the table is consulted with its own
      locking, which may fail). */
  datatype Registry = Registry(peers: map<DiamId, PeerInfo>, failing: set<DiamId>)

  /** The three outcomes of `fd_peer_getbyid`. */
  datatype Lookup = LookupError | NotFound | Found(info: PeerInfo)

  /** `fd_peer_getbyid(diamid, diamidlen, 0, &p)`: an error, a null peer, or
      the peer's record. */
  function GetById(reg: Registry, diamid: DiamId): (r: Lookup)
    ensures r.LookupError? <==> diamid in reg.failing
    ensures r.NotFound? <==> diamid !in reg.failing && diamid !in reg.peers
    ensures r.Found? <==> diamid !in reg.failing && diamid in reg.peers
    ensures r.Found? ==> r.info == reg.peers[diamid]
  {
    if diamid in reg.failing then LookupError
    else if diamid in reg.peers then Found(reg.peers[diamid])
    else NotFound
  }
}
