/**
 Peer reputation and bans (sns-daemon/src/peer_guard.rs). The clock reading is a
 parameter of every call.
 */
module PeerGuard {
  import opened Common

  type PeerId = string

  const INITIAL_SCORE: int := 50
  const HANDSHAKE_BAN_SECS: nat := 3600
  const STALE_SECS: int := 86400

  datatype PeerRecord = PeerRecord(
    score: int, connections: nat, failedHandshakes: nat, spamAttempts: nat, bytesSent: nat, bytesReceived: nat,
    firstSeen: nat, lastSeen: nat)

  datatype BanRecord = BanRecord(reason: string, bannedAt: nat, expiresAt: Option<nat>)

  datatype Guard = Guard(scores: map<PeerId, PeerRecord>, banned: map<PeerId, BanRecord>)

  datatype Command =
    | OnConnected(peer: PeerId)
    | OnFailedHandshake(peer: PeerId)
    | OnProtocolViolation(peer: PeerId)
    | OnSuccessfulRelay(peer: PeerId, bytes: nat)
    | Ban(peer: PeerId, reason: string, expiresAt: Option<nat>)
    | IsAllowed(peer: PeerId)
    | Cleanup

  function AtMost100(score: int): int {
    if score < 100 then score else 100
  }

  function DefaultRecord(now: nat): PeerRecord {
    PeerRecord(INITIAL_SCORE, 0, 0, 0, 0, 0, now, now)
  }

  function Tracked(s: Guard, p: PeerId, now: nat): PeerRecord {
    if p in s.scores then s.scores[p] else DefaultRecord(now)
  }

  function Track(s: Guard, p: PeerId, r: PeerRecord): Guard {
    s.(scores := s.scores[p := r])
  }

  function BanPeer(s: Guard, p: PeerId, reason: string, expiresAt: Option<nat>, now: nat): Guard {
    Guard(s.scores - {p}, s.banned[p := BanRecord(reason, now, expiresAt)])
  }

  predicate InForce(b: BanRecord, now: nat) {
    b.expiresAt.None? || now < b.expiresAt.value
  }

  predicate Allowed(s: Guard, p: PeerId, now: nat) {
    && !(p in s.banned && InForce(s.banned[p], now))
    && !(p in s.scores && s.scores[p].score <= 0)
  }

  function After(s: Guard, c: Command, now: nat): Guard {
    match c
    case OnConnected(p) =>
      var r := Tracked(s, p, now);
      Track(s, p, r.(connections := r.connections + 1, lastSeen := now, score := AtMost100(r.score + 1)))
    case OnFailedHandshake(p) =>
      var r := Tracked(s, p, now);
      var r' := r.(failedHandshakes := r.failedHandshakes + 1, score := r.score - 10);
      if r'.failedHandshakes >= 5 then BanPeer(s, p, "5 failed handshakes", Some(now + HANDSHAKE_BAN_SECS), now)
      else Track(s, p, r')
    case OnProtocolViolation(p) =>
      var r := Tracked(s, p, now);
      var r' := r.(score := r.score - 25, spamAttempts := r.spamAttempts + 1);
      if r'.score <= 0 then BanPeer(s, p, "protocol violation", None, now) else Track(s, p, r')
    case OnSuccessfulRelay(p, bytes) =>
      var r := Tracked(s, p, now);
      Track(s, p, r.(bytesReceived := r.bytesReceived + bytes, lastSeen := now, score := AtMost100(r.score + 2)))
    case Ban(p, reason, expiresAt) => BanPeer(s, p, reason, expiresAt, now)
    case IsAllowed(p) =>
      if p in s.banned && !InForce(s.banned[p], now) then s.(banned := s.banned - {p}) else s
    case Cleanup =>
      Guard(map p | p in s.scores && now - s.scores[p].lastSeen < STALE_SECS :: s.scores[p],
            map p | p in s.banned && InForce(s.banned[p], now) :: s.banned[p])
  }

  class PeerGuard {
    var scores: map<PeerId, PeerRecord>
    var banned: map<PeerId, BanRecord>

    ghost function State(): Guard
      reads this
    {
      Guard(scores, banned)
    }

    constructor ()
      ensures State() == Guard(map[], map[])
    {
      scores, banned := map[], map[];
    }

    method IsAllowed(peer: PeerId, now: nat) returns (ok: bool)
      modifies this
      ensures State() == After(old(State()), Command.IsAllowed(peer), now)
      ensures ok <==>
                && !(peer in old(banned) && (old(banned)[peer].expiresAt.None? || now < old(banned)[peer].expiresAt.value))
                && !(peer in old(scores) && old(scores)[peer].score <= 0)
      ensures ok == Allowed(old(State()), peer, now)
      ensures scores == old(scores)
      ensures banned == if peer in old(banned) && !InForce(old(banned)[peer], now) then old(banned) - {peer} else old(banned)
    {
      if peer in banned {
        match banned[peer].expiresAt {
          case Some(expires) =>
            if now < expires {
              return false;
            }
            banned := banned - {peer};
          case None =>
            return false;
        }
      }
      if peer in scores {
        if scores[peer].score <= 0 {
          return false;
        }
      }
      return true;
    }

    method OnConnected(peer: PeerId, now: nat)
      modifies this
      ensures State() == After(old(State()), Command.OnConnected(peer), now)
    {
      var record := if peer in scores then scores[peer] else DefaultRecord(now);
      record := record.(connections := record.connections + 1, lastSeen := now);
      record := record.(score := AtMost100(record.score + 1));
      scores := scores[peer := record];
    }

    method OnFailedHandshake(peer: PeerId, now: nat)
      modifies this
      ensures State() == After(old(State()), Command.OnFailedHandshake(peer), now)
    {
      var record := if peer in scores then scores[peer] else DefaultRecord(now);
      record := record.(failedHandshakes := record.failedHandshakes + 1);
      record := record.(score := record.score - 10);
      scores := scores[peer := record];
      if record.failedHandshakes >= 5 {
        Ban(peer, "5 failed handshakes", Some(now + HANDSHAKE_BAN_SECS), now);
      }
    }

    method OnProtocolViolation(peer: PeerId, now: nat)
      modifies this
      ensures State() == After(old(State()), Command.OnProtocolViolation(peer), now)
    {
      var record := if peer in scores then scores[peer] else DefaultRecord(now);
      record := record.(score := record.score - 25);
      record := record.(spamAttempts := record.spamAttempts + 1);
      scores := scores[peer := record];
      if record.score <= 0 {
        Ban(peer, "protocol violation", None, now);
      }
    }

    method OnSuccessfulRelay(peer: PeerId, bytes: nat, now: nat)
      modifies this
      ensures State() == After(old(State()), Command.OnSuccessfulRelay(peer, bytes), now)
    {
      var record := if peer in scores then scores[peer] else DefaultRecord(now);
      record := record.(bytesReceived := record.bytesReceived + bytes, lastSeen := now);
      record := record.(score := AtMost100(record.score + 2));
      scores := scores[peer := record];
    }

    method Ban(peer: PeerId, reason: string, expiresAt: Option<nat>, now: nat)
      modifies this
      ensures State() == After(old(State()), Command.Ban(peer, reason, expiresAt), now)
      ensures banned == old(banned)[peer := BanRecord(reason, now, expiresAt)] && scores == old(scores) - {peer}
    {
      banned := banned[peer := BanRecord(reason, now, expiresAt)];
      scores := scores - {peer};
    }

    method Cleanup(now: nat)
      requires forall p :: p in scores ==> scores[p].lastSeen <= now
      modifies this
      ensures State() == After(old(State()), Command.Cleanup, now)
      ensures forall p :: p in scores <==> p in old(scores) && now - old(scores)[p].lastSeen < 86400
      ensures forall p :: p in scores ==> scores[p] == old(scores)[p]
      ensures forall p :: p in banned <==> p in old(banned) && InForce(old(banned)[p], now)
      ensures forall p :: p in banned ==> banned[p] == old(banned)[p]
    {
      banned := map p | p in banned && (banned[p].expiresAt.None? || now < banned[p].expiresAt.value) :: banned[p];
      scores := map p | p in scores && now - scores[p].lastSeen < STALE_SECS :: scores[p];
    }
  }
}
