# rt_pref: routing-preference scoring for freeDiameter

`rt_pref` is a freeDiameter extension. It registers an out-routing callback.
For each outgoing request, the callback reads the peer preference
(`msg_peer_pref`) from the message header, walks the routing candidate list
and adds `FD_SCORE_FINALDEST` to the score of every candidate whose peer
matches that preference. A preference asks either for a relay (the value
`OGS_DIAM_PEER_PREF_RELAY`) or for a peer that advertises a given Diameter
Application Identifier. Relay and application identifiers are the notions of
section 2.4 of RFC 6733.

The model has two modules:

- `PeerRegistry` (`peer_registry.dfy`) is the host's peer table as the
  extension queries it. `fd_peer_getbyid` has three outcomes: an error, no
  such peer, or the peer's capability record (`pir_relay`, `pir_apps`).
- `RtPref` (`rt_pref.dfy`) holds the callback and its two peer-capability
  predicates.
  - `RtPref.RtPref` updates an `array<Candidate>` in place with a loop.
  - `RtPref.PeerSupportsAppId` scans the application list with a loop that
    stops at the first match.
  - `RtPref.PeerSupportsRelay` is straight-line code, so it is a function.
  - The functions `Scored`, `Rescore` and `Outcome` specify one candidate,
    the whole traversal and the whole call.
  - `Preferred` defines a match directly on the peer table. It is the
    reference definition that the scoring is proved against.

Inputs from outside the extension are parameters:

- what `fd_msg_hdr` returns (`HeaderRead`);
- what the lock and unlock calls report (`GuardResult`, with the error code
  the callback returns);
- the peer table (`Registry`).

Constants:

- `FD_SCORE_FINALDEST` is 100, its value in freeDiameter's `libfdcore.h`.
  That header is not part of this model.
- `OGS_DIAM_PEER_PREF_RELAY` is defined outside the extension. The model
  leaves its value open: it is a constant of the 32-bit identifier type with
  no fixed value.

Where the design description and the code disagree, the model follows the
code. The design says the relay check and the application check are mutually
exclusive by hint. In the code (`rt_pref.c:88-92`) the `else if` also runs
when the hint is the Relay value and the peer is not exactly a relay. It then
looks for the Relay value itself in the peer's application list. The scoring
is the same either way: a candidate gets one bonus if either test fires, and
never two (`Scored`, `AppListDecidesOtherwise`). The two-peer scenario holds
only when the Relay value is not 0 and not 7 (`TwoPeerScenario`).

## Model

| member | source | states |
|---|---|---|
| `PeerRegistry.GetById` | extensions/rt_pref/rt_pref.c:110-118 | The peer lookup has three outcomes. It errors exactly for the identities the table fails on. Otherwise it finds exactly the known peers and returns their record. |
| `RtPref.PeerSupportsAppId` | extensions/rt_pref/rt_pref.c:105-131 | The result is true iff the lookup succeeds, the peer is known, and `id` occurs in its application list. A lookup error or an unknown peer gives false. The scan stops at the first match. |
| `RtPref.PeerSupportsRelay` | extensions/rt_pref/rt_pref.c:133-152 | The result is true iff the lookup succeeds, the peer is known, and its relay flag is exactly 1. Any other value, including other non-zero values, gives false. |
| `RtPref.Scored` | extensions/rt_pref/rt_pref.c:86-93 | The candidate keeps its identity. Its score rises by exactly `FD_SCORE_FINALDEST` when the peer is `Preferred`, and is otherwise unchanged. So it gets at most one bonus. |
| `RtPref.Rescore` | extensions/rt_pref/rt_pref.c:83-94 | The traversal keeps the list length. Entry k of the result is entry k of the input, scored once. |
| `RtPref.Outcome` | extensions/rt_pref/rt_pref.c:63-103 | The call keeps the list length. The list changes only if the header was read, the hint is non-zero, and the lock was taken. |
| `RtPref.RtPref` | extensions/rt_pref/rt_pref.c:63-103 | Scoring in place leaves the returned status and the array contents equal to `Outcome` of the old contents. |
| `RtPref.HeaderErrorIsNoOp` | extensions/rt_pref/rt_pref.c:67-70 | An unreadable header returns -1 and leaves every candidate as it was. |
| `RtPref.UnsetHintIsNoOp` | extensions/rt_pref/rt_pref.c:72-75 | Hint 0 returns 0 and leaves every candidate as it was. This holds even when a peer lists application 0. The result does not depend on the lock outcome, because the lock is not taken. |
| `RtPref.LockFailureIsNoOp` | extensions/rt_pref/rt_pref.c:77-81 | A failed lock returns its error code and leaves every candidate as it was. |
| `RtPref.UnlockFailureKeepsBonuses` | extensions/rt_pref/rt_pref.c:83-100 | A failed unlock returns its error code. The candidate list is the same as after a successful call: bonuses are not rolled back. |
| `RtPref.ScoresAfterCall` | extensions/rt_pref/rt_pref.c:83-94 | On every path, each candidate keeps its position and identity. Its score is either unchanged or raised by exactly one bonus. It is raised iff the header was read, the hint is set, the lock was taken, and the peer is `Preferred`. |
| `RtPref.UnknownPeerGetsNoBonus` | extensions/rt_pref/rt_pref.c:110-118 | A candidate whose peer lookup errors, or whose peer is unknown, keeps its score. The call still returns 0. |
| `RtPref.RelayPeerGetsBonus` | extensions/rt_pref/rt_pref.c:88-90 | With the Relay hint, a known peer whose relay flag is exactly 1 gets the bonus. |
| `RtPref.AppListDecidesOtherwise` | extensions/rt_pref/rt_pref.c:91-92 | Suppose the relay test does not fire: the hint is not Relay, or the peer is not exactly a relay. Then the bonus is given iff the peer is known and lists the hint value as an application. This includes the Relay value. Otherwise the candidate is unchanged. |
| `RtPref.RescoreTwice` | extensions/rt_pref/rt_pref.c:83-94 | Scoring twice with the same hint gives preferred candidates two bonuses and leaves the others unchanged. Nothing is deduplicated across calls. |
| `RtPref.EmptyListStaysEmpty` | extensions/rt_pref/rt_pref.c:83 | An empty candidate list stays empty for every header, lock outcome and hint. |
| `RtPref.TwoPeerScenario` | extensions/rt_pref/rt_pref.c:83-94 | Peer A is a relay with no applications; peer B is not a relay and lists application 7. The Relay hint raises only A, and hint 7 raises only B. This holds when the Relay value is neither 0 nor 7. |

## Left out

- The read/write lock `rt_pref_lock` is not modelled as a lock. Its creation, its self-test at load and its destruction are left out (`rt_pref.c:10, 29, 40-51`). Taking and releasing it in the callback is reduced to the success or failure those calls report. Concurrency is outside a sequential model.
- The error code on lock or unlock failure is the `errno` value current at that moment. The model treats it as an opaque integer supplied with the failure. `pthread_rwlock_*` report errors through their return value and do not set `errno`, so that value is not modelled further.
- Module entry and exit are left out: `EXTENSION_ENTRY`, `rt_pref_entry`, `fd_ext_fini` and the callback's registration and unregistration. They are host plugin glue.
- The internals of `fd_msg_hdr` and `fd_peer_getbyid` are not modelled. They are freeDiameter core calls, given here as a parameter and as a map. The host's rules for matching identities (for example case) belong to the peer table, not to this model.
- Logging calls are left out because they have no effect on scores or status.
- The intrusive circular `fd_list` and its pointer casts are modelled as an array visited once per index, in order. The application list `pir_apps` is modelled as a sequence of identifiers; the other fields of its entries are not read by the extension.
- `RtPref.Scored`: the candidate score is an unbounded integer, so the C `int` overflow on `score += FD_SCORE_FINALDEST` is not modelled. Scores in freeDiameter stay far from the limits.
- The C `&&` evaluates `peerSupportsRelay` only when the hint is the Relay value. The model keeps that order, but it is not observable, because the lookups only read.
