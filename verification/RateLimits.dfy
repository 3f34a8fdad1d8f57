/**
 Per-IP request limits and bans (sns-daemon/src/attack_prevention.rs:53-126), the
 order in which `rpc_handler` consults them (sns-daemon/src/rpc_proxy.rs:275-292),
 and the simpler limiter of sns-daemon/src/security.rs:66-104. The clock reading
 is a parameter of every call.
 */
module RateLimits {
  type Ip = string

  const WINDOW: int := 60
  const ALLOWED_PER_WINDOW: nat := 100
  const BAN_THRESHOLD: nat := 1000
  const BAN_SECS: nat := 86400
  const STALE_SECS: int := 300

  datatype IpRecord = IpRecord(count: nat, windowStart: nat, lastSeen: nat)

  datatype Guard = Guard(records: map<Ip, IpRecord>, bans: map<Ip, nat>)

  datatype RateResult = Allowed | Limited(retryAfter: int) | Banned

  /** `Gate` is the handler's order: the ban list first, then the rate limit. */
  datatype Command = CheckRate(ip: Ip) | IsBanned(ip: Ip) | BanIp(ip: Ip, duration: nat) | Gate(ip: Ip) | Cleanup

  datatype Response = Done | BanStatus(banned: bool) | Rate(result: RateResult) | Refused

  /** The record as it counts this request; time differences are exact integers
      here, and `RateLimitRuns.ClockNeverUnderflows` shows them non-negative. */
  function Counted(s: Guard, ip: Ip, now: nat): IpRecord {
    var r := if ip in s.records then s.records[ip] else IpRecord(0, now, now);
    var active := if now - r.windowStart > WINDOW then r.(count := 0, windowStart := now) else r;
    active.(count := active.count + 1, lastSeen := now)
  }

  function Verdict(r: IpRecord, now: nat): RateResult {
    if r.count > BAN_THRESHOLD then Banned
    else if r.count > ALLOWED_PER_WINDOW then Limited(WINDOW - (now - r.windowStart))
    else Allowed
  }

  function Ban(s: Guard, ip: Ip, duration: nat, now: nat): Guard {
    s.(bans := s.bans[ip := now + duration])
  }

  function AfterCheck(s: Guard, ip: Ip, now: nat): Guard {
    var r := Counted(s, ip, now);
    var t := s.(records := s.records[ip := r]);
    if Verdict(r, now).Banned? then Ban(t, ip, BAN_SECS, now) else t
  }

  predicate ActiveBan(s: Guard, ip: Ip, now: nat) {
    ip in s.bans && now < s.bans[ip]
  }

  /** `is_banned` drops an expired entry as it answers. */
  function AfterIsBanned(s: Guard, ip: Ip, now: nat): Guard {
    if ip in s.bans && !ActiveBan(s, ip, now) then s.(bans := s.bans - {ip}) else s
  }

  function AfterCleanup(s: Guard, now: nat): Guard {
    Guard(map ip | ip in s.records && now - s.records[ip].lastSeen < STALE_SECS :: s.records[ip],
          map ip | ip in s.bans && now < s.bans[ip] :: s.bans[ip])
  }

  function After(s: Guard, c: Command, now: nat): Guard {
    match c
    case CheckRate(ip) => AfterCheck(s, ip, now)
    case IsBanned(ip) => AfterIsBanned(s, ip, now)
    case BanIp(ip, duration) => Ban(s, ip, duration, now)
    case Gate(ip) => if ActiveBan(s, ip, now) then s else AfterCheck(AfterIsBanned(s, ip, now), ip, now)
    case Cleanup => AfterCleanup(s, now)
  }

  function Respond(s: Guard, c: Command, now: nat): Response {
    match c
    case CheckRate(ip) => Rate(Verdict(Counted(s, ip, now), now))
    case IsBanned(ip) => BanStatus(ActiveBan(s, ip, now))
    case BanIp(_, _) => Done
    case Gate(ip) => if ActiveBan(s, ip, now) then Refused else Rate(Verdict(Counted(s, ip, now), now))
    case Cleanup => Done
  }

  class AttackPrevention {
    var ipRequests: map<Ip, IpRecord>
    var bannedIps: map<Ip, nat>

    ghost function State(): Guard
      reads this
    {
      Guard(ipRequests, bannedIps)
    }

    constructor ()
      ensures State() == Guard(map[], map[])
    {
      ipRequests, bannedIps := map[], map[];
    }

    method IsBanned(ip: Ip, now: nat) returns (banned: bool)
      modifies this`bannedIps
      ensures State() == After(old(State()), Command.IsBanned(ip), now)
      ensures BanStatus(banned) == Respond(old(State()), Command.IsBanned(ip), now)
      ensures banned <==> ip in old(bannedIps) && now < old(bannedIps)[ip]
      ensures bannedIps == if banned then old(bannedIps) else old(bannedIps) - {ip}
    {
      if ip in bannedIps {
        if now < bannedIps[ip] {
          return true;
        }
        bannedIps := bannedIps - {ip};
      }
      return false;
    }

    method BanIp(ip: Ip, duration: nat, now: nat)
      modifies this`bannedIps
      ensures State() == After(old(State()), Command.BanIp(ip, duration), now)
      ensures bannedIps == old(bannedIps)[ip := now + duration]
    {
      bannedIps := bannedIps[ip := now + duration];
    }

    /** The clock must not lie before what is on record, or the u64 subtraction aborts. */
    method CheckRateLimit(ip: Ip, now: nat) returns (result: RateResult)
      requires ip in ipRequests ==> ipRequests[ip].windowStart <= now
      modifies this
      ensures State() == After(old(State()), CheckRate(ip), now)
      ensures Rate(result) == Respond(old(State()), CheckRate(ip), now)
      ensures ip in ipRequests && ipRequests == old(ipRequests)[ip := ipRequests[ip]] && ipRequests[ip].lastSeen == now
    {
      var record := if ip in ipRequests then ipRequests[ip] else IpRecord(0, now, now);
      if now - record.windowStart > WINDOW {
        record := record.(count := 0, windowStart := now);
      }
      record := record.(count := record.count + 1, lastSeen := now);
      ipRequests := ipRequests[ip := record];
      if record.count > BAN_THRESHOLD {
        BanIp(ip, BAN_SECS, now);
        return Banned;
      }
      if record.count > ALLOWED_PER_WINDOW {
        return Limited(WINDOW - (now - record.windowStart));
      }
      return Allowed;
    }

    /** The two checks at the head of `rpc_handler`. */
    method Gate(ip: Ip, now: nat) returns (response: Response)
      requires ip in ipRequests ==> ipRequests[ip].windowStart <= now
      modifies this
      ensures State() == After(old(State()), Command.Gate(ip), now)
      ensures response == Respond(old(State()), Command.Gate(ip), now)
      ensures response == Refused ==> State() == old(State())
      ensures response.Rate? && !response.result.Banned? ==> bannedIps == old(bannedIps) - {ip}
    {
      var banned := IsBanned(ip, now);
      if banned {
        return Refused;
      }
      var result := CheckRateLimit(ip, now);
      return Rate(result);
    }

    method Cleanup(now: nat)
      requires forall ip :: ip in ipRequests ==> ipRequests[ip].lastSeen <= now
      modifies this
      ensures State() == After(old(State()), Command.Cleanup, now)
      ensures forall ip :: ip in ipRequests <==> ip in old(ipRequests) && now - old(ipRequests)[ip].lastSeen < 300
      ensures forall ip :: ip in bannedIps <==> ip in old(bannedIps) && now < old(bannedIps)[ip]
      ensures forall ip :: ip in ipRequests ==> ipRequests[ip] == old(ipRequests)[ip]
      ensures forall ip :: ip in bannedIps ==> bannedIps[ip] == old(bannedIps)[ip]
    {
      ipRequests := map ip | ip in ipRequests && now - ipRequests[ip].lastSeen < STALE_SECS :: ipRequests[ip];
      bannedIps := map ip | ip in bannedIps && now < bannedIps[ip] :: bannedIps[ip];
    }
  }

  // ----- security.rs ----------------------------------------------------------

  /** Requests counted and start of the window. */
  datatype Slot = Slot(count: nat, start: nat)

  function Since(now: nat, t: nat): nat {
    if now < t then 0 else now - t
  }

  function CountedSlot(m: map<Ip, Slot>, ip: Ip, now: nat): Slot {
    var e := if ip in m then m[ip] else Slot(0, now);
    var active := if Since(now, e.start) > WINDOW then Slot(0, now) else e;
    active.(count := active.count + 1)
  }

  function FreshSlots(m: map<Ip, Slot>, now: nat): map<Ip, Slot> {
    map ip | ip in m && Since(now, m[ip].start) < STALE_SECS :: m[ip]
  }

  class RateLimiter {
    var requests: map<Ip, Slot>

    constructor ()
      ensures requests == map[]
    {
      requests := map[];
    }

    method Check(ip: Ip, now: nat) returns (ok: bool)
      modifies this
      ensures requests == old(requests)[ip := CountedSlot(old(requests), ip, now)]
      ensures ok <==> CountedSlot(old(requests), ip, now).count <= ALLOWED_PER_WINDOW
    {
      var entry := if ip in requests then requests[ip] else Slot(0, now);
      if Since(now, entry.start) > WINDOW {
        entry := Slot(0, now);
      }
      entry := entry.(count := entry.count + 1);
      requests := requests[ip := entry];
      return entry.count <= ALLOWED_PER_WINDOW;
    }

    method Cleanup(now: nat)
      modifies this
      ensures requests == FreshSlots(old(requests), now)
      ensures forall ip :: ip in requests <==> ip in old(requests) && Since(now, old(requests)[ip].start) < 300
      ensures forall ip :: ip in requests ==> requests[ip] == old(requests)[ip]
    {
      requests := map ip | ip in requests && Since(now, requests[ip].start) < STALE_SECS :: requests[ip];
    }
  }
}
