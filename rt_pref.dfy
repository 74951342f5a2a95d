// The `rt_pref` routing extension: an out-routing callback that reads the
// peer preference carried in a Diameter message header and adds the
// final-destination bonus to the score of every candidate peer that matches
// it.  A preference is either the Relay preference or the Application
// Identifier of an application the preferred peer must support (section
// 2.4 of RFC 6733 defines both notions).
module RtPref {
  import opened PeerRegistry

  /** `FD_SCORE_FINALDEST`, the score freeDiameter gives a candidate that is
      the final recipient of a message. */
  const FD_SCORE_FINALDEST: int := 100

  /** `OGS_DIAM_PEER_PREF_RELAY`, the header value that asks for a relay.
      Its numeric value is defined outside this extension and is left open. */
  const OGS_DIAM_PEER_PREF_RELAY: AppId

  /** The preference hint `msg_peer_pref`; 0 means that none was set.  It is
      handed to `peerSupportsAppId` as an `application_id_t`. */
  type Hint = AppId

  /** One entry of the routing candidate list: the peer's Diameter identity
      and the score the routing pipeline has given it so far. */
  datatype Candidate = Candidate(diamid: DiamId, score: int)

  /** What `fd_msg_hdr` gives back: a failure, or the header's preference. */
  datatype HeaderRead = HeaderError | Header(msgPeerPref: Hint)

  /** The outcome of one `pthread_rwlock_wrlock` or `pthread_rwlock_unlock`
      call on the extension's lock; on failure the callback returns the
      current `errno`, here `code`. */
  datatype GuardResult = GuardOk | GuardFailed(code: int)

  /** Reference definition of a match, stated directly on the peer table:
      the peer is known, and either a relay was asked for and the peer's
      relay flag is exactly 1, or the hint occurs among its applications. */
  predicate Preferred(reg: Registry, hint: Hint, diamid: DiamId)
  {
    diamid !in reg.failing && diamid in reg.peers &&
    ((hint == OGS_DIAM_PEER_PREF_RELAY && reg.peers[diamid].relay == 1) ||
     hint in reg.peers[diamid].apps)
  }

  /** What `peerSupportsAppId` decides. */
  predicate SupportsApp(reg: Registry, diamid: DiamId, id: AppId)
  {
    match GetById(reg, diamid)
    case Found(p) => id in p.apps
    case _ => false
  }

  /** `peerSupportsAppId`: look the peer up, then walk its application list
      in order and stop at the first entry equal to `id`.  A failed lookup
      and an unknown peer both answer false. */
  method PeerSupportsAppId(reg: Registry, diamid: DiamId, id: AppId) returns (res: bool)
    ensures res <==> diamid !in reg.failing && diamid in reg.peers && id in reg.peers[diamid].apps
    ensures res == SupportsApp(reg, diamid, id)
  {
    res := false;
    var lookup := GetById(reg, diamid);
    if lookup.LookupError? {
      return false;
    }
    if lookup.NotFound? {
      return false;
    }
    var apps := lookup.info.apps;
    var i := 0;
    while i < |apps|
      invariant 0 <= i <= |apps|
      invariant !res
      invariant id !in apps[..i]
    {
      if apps[i] == id {
        res := true;
        break;
      }
      i := i + 1;
    }
    assert res || apps[..i] == apps;
  }

  /** `peerSupportsRelay`: true only when the peer is found and its relay
      flag is exactly 1 (any other non-zero value does not count). */
  function PeerSupportsRelay(reg: Registry, diamid: DiamId): (r: bool)
    ensures r <==> diamid !in reg.failing && diamid in reg.peers && reg.peers[diamid].relay == 1
  {
    match GetById(reg, diamid)
    case Found(p) => p.relay == 1
    case _ => false
  }

  /** The loop body of `rt_pref` for one candidate: the relay test first and,
      when it does not fire, the application test with the hint itself as
      the Application Identifier (also when the hint is the Relay one). */
  function Scored(c: Candidate, reg: Registry, hint: Hint): (r: Candidate)
    ensures r.diamid == c.diamid
    ensures r.score == c.score + (if Preferred(reg, hint, c.diamid) then FD_SCORE_FINALDEST else 0)
  {
    if hint == OGS_DIAM_PEER_PREF_RELAY && PeerSupportsRelay(reg, c.diamid) then
      c.(score := c.score + FD_SCORE_FINALDEST)
    else if SupportsApp(reg, c.diamid, hint) then
      c.(score := c.score + FD_SCORE_FINALDEST)
    else
      c
  }

  /** The whole traversal of `rt_pref`: every candidate, in list order, once. */
  function Rescore(cs: seq<Candidate>, reg: Registry, hint: Hint): (r: seq<Candidate>)
    ensures |r| == |cs|
    ensures forall k :: 0 <= k < |cs| ==> r[k] == Scored(cs[k], reg, hint)
  {
    if cs == [] then [] else [Scored(cs[0], reg, hint)] + Rescore(cs[1..], reg, hint)
  }

  /** The status `rt_pref` returns and the candidate list it leaves, given
      what the header read, the lock and the unlock report. */
  function Outcome(hdr: HeaderRead, lock: GuardResult, unlock: GuardResult,
                   reg: Registry, cs: seq<Candidate>): (r: (int, seq<Candidate>))
    ensures |r.1| == |cs|
    ensures r.1 != cs ==> hdr.Header? && hdr.msgPeerPref != 0 && lock.GuardOk?
  {
    match hdr
    case HeaderError => (-1, cs)
    case Header(pref) =>
      if pref == 0 then (0, cs)
      else if lock.GuardFailed? then (lock.code, cs)
      else (if unlock.GuardFailed? then unlock.code else 0, Rescore(cs, reg, pref))
  }

  /** `rt_pref`: the out-routing callback, scoring the candidate array in
      place.  Only the `score` of the entries changes. */
  method RtPref(hdr: HeaderRead, lock: GuardResult, unlock: GuardResult,
                reg: Registry, candidates: array<Candidate>) returns (ret: int)
    modifies candidates
    ensures (ret, candidates[..]) == Outcome(hdr, lock, unlock, reg, old(candidates[..]))
  {
    if hdr.HeaderError? {
      return -1;
    }
    var pref := hdr.msgPeerPref;
    if pref == 0 {
      return 0;
    }
    if lock.GuardFailed? {
      return lock.code;
    }
    var i := 0;
    while i < candidates.Length
      invariant 0 <= i <= candidates.Length
      invariant forall k :: 0 <= k < i ==> candidates[k] == Scored(old(candidates[k]), reg, pref)
      invariant forall k :: i <= k < candidates.Length ==> candidates[k] == old(candidates[k])
    {
      var cand := candidates[i];
      if pref == OGS_DIAM_PEER_PREF_RELAY && PeerSupportsRelay(reg, cand.diamid) {
        candidates[i] := cand.(score := cand.score + FD_SCORE_FINALDEST);
      } else {
        var supported := PeerSupportsAppId(reg, cand.diamid, pref);
        if supported {
          candidates[i] := cand.(score := cand.score + FD_SCORE_FINALDEST);
        }
      }
      i := i + 1;
    }
    assert candidates[..] == Rescore(old(candidates[..]), reg, pref);
    if unlock.GuardFailed? {
      return unlock.code;
    }
    return 0;
  }

  // ---------------------------------------------------------------------
  // Properties of the callback

  /** An unreadable header fails the call with -1 and touches nothing. */
  lemma HeaderErrorIsNoOp(lock: GuardResult, unlock: GuardResult, reg: Registry, cs: seq<Candidate>)
    ensures Outcome(HeaderError, lock, unlock, reg, cs) == (-1, cs)
  {
  }

  /** An unset hint succeeds at once and touches nothing, whatever the lock
      would have reported (it is not taken) and even when a peer lists
      application 0, which the traversal would have matched. */
  lemma UnsetHintIsNoOp(lock: GuardResult, unlock: GuardResult, lock': GuardResult, unlock': GuardResult,
                        reg: Registry, cs: seq<Candidate>)
    ensures Outcome(Header(0), lock, unlock, reg, cs) == (0, cs)
    ensures Outcome(Header(0), lock, unlock, reg, cs) == Outcome(Header(0), lock', unlock', reg, cs)
  {
  }

  /** A failed lock returns its error code and touches nothing. */
  lemma LockFailureIsNoOp(hint: Hint, code: int, unlock: GuardResult, reg: Registry, cs: seq<Candidate>)
    requires hint != 0
    ensures Outcome(Header(hint), GuardFailed(code), unlock, reg, cs) == (code, cs)
  {
  }

  /** Once the lock is taken, every candidate is scored, and a failed unlock
      reports its error code without undoing the bonuses already given. */
  lemma UnlockFailureKeepsBonuses(hint: Hint, code: int, reg: Registry, cs: seq<Candidate>)
    requires hint != 0
    ensures Outcome(Header(hint), GuardOk, GuardFailed(code), reg, cs).0 == code
    ensures Outcome(Header(hint), GuardOk, GuardFailed(code), reg, cs).1
         == Outcome(Header(hint), GuardOk, GuardOk, reg, cs).1
  {
  }

  /** On every path: the list keeps its length, its order and its
      identities, and each score ends either unchanged or raised by exactly
      one bonus, the bonus going to exactly the preferred peers when the
      header was read, the hint set and the lock taken. */
  lemma {:induction false} ScoresAfterCall(hdr: HeaderRead, lock: GuardResult, unlock: GuardResult,
                                           reg: Registry, cs: seq<Candidate>, k: nat)
    requires k < |cs|
    ensures |Outcome(hdr, lock, unlock, reg, cs).1| == |cs|
    ensures Outcome(hdr, lock, unlock, reg, cs).1[k].diamid == cs[k].diamid
    ensures var s := Outcome(hdr, lock, unlock, reg, cs).1[k].score;
            s == cs[k].score || s == cs[k].score + FD_SCORE_FINALDEST
    ensures Outcome(hdr, lock, unlock, reg, cs).1[k].score == cs[k].score + FD_SCORE_FINALDEST
        <==> hdr.Header? && hdr.msgPeerPref != 0 && lock.GuardOk? && Preferred(reg, hdr.msgPeerPref, cs[k].diamid)
  {
    var r := Outcome(hdr, lock, unlock, reg, cs).1;
    if hdr.Header? && hdr.msgPeerPref != 0 && lock.GuardOk? {
      assert r == Rescore(cs, reg, hdr.msgPeerPref);
      assert r[k] == Scored(cs[k], reg, hdr.msgPeerPref);
    } else {
      assert r == cs;
    }
  }

  /** A candidate whose peer cannot be looked up, or is unknown, gets no
      bonus, and the call still succeeds when the lock and unlock do. */
  lemma {:induction false} UnknownPeerGetsNoBonus(hint: Hint, reg: Registry, cs: seq<Candidate>, k: nat)
    requires hint != 0 && k < |cs|
    requires cs[k].diamid in reg.failing || cs[k].diamid !in reg.peers
    ensures Outcome(Header(hint), GuardOk, GuardOk, reg, cs).0 == 0
    ensures Outcome(Header(hint), GuardOk, GuardOk, reg, cs).1[k] == cs[k]
  {
    assert Outcome(Header(hint), GuardOk, GuardOk, reg, cs).1 == Rescore(cs, reg, hint);
  }

  /** With the Relay hint, a known peer whose relay flag is exactly 1 gets
      the bonus. */
  lemma RelayPeerGetsBonus(c: Candidate, reg: Registry)
    requires c.diamid !in reg.failing && c.diamid in reg.peers && reg.peers[c.diamid].relay == 1
    ensures Scored(c, reg, OGS_DIAM_PEER_PREF_RELAY).score == c.score + FD_SCORE_FINALDEST
  {
  }

  /** When the relay test does not fire (another hint, or a peer that is not
      exactly a relay), the bonus is given iff the peer is known and lists
      the hint among its applications.  This includes the Relay hint: its
      numeric value is then looked for in the application list. */
  lemma AppListDecidesOtherwise(c: Candidate, reg: Registry, hint: Hint)
    requires hint != OGS_DIAM_PEER_PREF_RELAY || !PeerSupportsRelay(reg, c.diamid)
    ensures Scored(c, reg, hint).score == c.score + FD_SCORE_FINALDEST
        <==> c.diamid !in reg.failing && c.diamid in reg.peers && hint in reg.peers[c.diamid].apps
    ensures Scored(c, reg, hint).score != c.score + FD_SCORE_FINALDEST ==> Scored(c, reg, hint) == c
  {
  }

  /** The bonus is not deduplicated across calls: scoring a list twice with
      the same hint gives each preferred candidate two bonuses. */
  lemma {:induction false} RescoreTwice(cs: seq<Candidate>, reg: Registry, hint: Hint, k: nat)
    requires k < |cs|
    ensures Rescore(Rescore(cs, reg, hint), reg, hint)[k].score
         == cs[k].score + (if Preferred(reg, hint, cs[k].diamid) then 2 * FD_SCORE_FINALDEST else 0)
  {
    var once := Rescore(cs, reg, hint);
    assert once[k] == Scored(cs[k], reg, hint);
    assert Rescore(once, reg, hint)[k] == Scored(once[k], reg, hint);
  }

  /** An empty candidate list stays empty whatever the hint. */
  lemma EmptyListStaysEmpty(hdr: HeaderRead, lock: GuardResult, unlock: GuardResult, reg: Registry)
    ensures Outcome(hdr, lock, unlock, reg, []).1 == []
  {
  }

  /** Two peers: A a relay with no applications, B not a relay and listing
      application 7.  The Relay hint raises A only, hint 7 raises B only,
      provided the Relay hint's own value is neither 0 nor 7. */
  lemma TwoPeerScenario()
    requires OGS_DIAM_PEER_PREF_RELAY != 0 && OGS_DIAM_PEER_PREF_RELAY != 7
    ensures var reg := Registry(map["A" := PeerInfo(1, []), "B" := PeerInfo(0, [7])], {});
            var cs := [Candidate("A", 10), Candidate("B", 5)];
            Outcome(Header(OGS_DIAM_PEER_PREF_RELAY), GuardOk, GuardOk, reg, cs)
              == (0, [Candidate("A", 10 + FD_SCORE_FINALDEST), Candidate("B", 5)]) &&
            Outcome(Header(7), GuardOk, GuardOk, reg, cs)
              == (0, [Candidate("A", 10), Candidate("B", 5 + FD_SCORE_FINALDEST)])
  {
    var reg := Registry(map["A" := PeerInfo(1, []), "B" := PeerInfo(0, [7])], {});
    var cs := [Candidate("A", 10), Candidate("B", 5)];
    assert "A" != "B" by { assert "A"[0] != "B"[0]; }
    assert reg.peers["A"] == PeerInfo(1, []) && reg.peers["B"] == PeerInfo(0, [7]);
    var relay := Rescore(cs, reg, OGS_DIAM_PEER_PREF_RELAY);
    assert relay[0] == Candidate("A", 10 + FD_SCORE_FINALDEST);
    assert relay[1] == Candidate("B", 5);
    assert relay == [Candidate("A", 10 + FD_SCORE_FINALDEST), Candidate("B", 5)];
    var app := Rescore(cs, reg, 7);
    assert app[0] == Candidate("A", 10);
    assert app[1] == Candidate("B", 5 + FD_SCORE_FINALDEST);
    assert app == [Candidate("A", 10), Candidate("B", 5 + FD_SCORE_FINALDEST)];
  }
}
