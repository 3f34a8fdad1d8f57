/**
 What the answers of the request guard mean to the client: how the count decides,
 what `retry_after` is worth, and how long a ban lasts.
 */
module RateAnswers {
  import opened RateLimits
  import opened RateLimitRuns

  lemma RunThen(pre: seq<Timed>, t: Timed)
    ensures Run(pre + [t], true) == After(Run(pre, true), t.cmd, t.now)
    ensures Run(pre + [t], false) == if t.cmd.Cleanup? then Run(pre, false) else After(Run(pre, false), t.cmd, t.now)
  {
    assert (pre + [t])[..|pre|] == pre;
  }

  // ----- How the count decides -----------------------------------------------------

  lemma {:induction false} BurstIsCounted(pre: seq<Timed>, ip: Ip, now: nat, n: nat)
    requires ip !in Run(pre, true).records
    ensures var s := Run(pre + Burst(ip, now, n), true);
            if n == 0 then ip !in s.records
            else ip in s.records && s.records[ip].count == n && s.records[ip].windowStart == now
  {
    hide Run;
    if n == 0 {
      assert pre + Burst(ip, now, 0) == pre;
    } else {
      BurstIsCounted(pre, ip, now, n - 1);
      RunThen(pre + Burst(ip, now, n - 1), Timed(now, CheckRate(ip)));
      assert pre + Burst(ip, now, n) == pre + Burst(ip, now, n - 1) + [Timed(now, CheckRate(ip))];
    }
  }

  /** After `n` requests at one moment the next is allowed, told to wait a minute, or
      banned, as it is among the first hundred, the first thousand, or past them. */
  lemma NthAnswer(pre: seq<Timed>, ip: Ip, now: nat, n: nat)
    requires ip !in Run(pre, true).records
    ensures Respond(Run(pre + Burst(ip, now, n), true), CheckRate(ip), now)
         == if n < 100 then Rate(Allowed) else if n < 1000 then Rate(Limited(60)) else Rate(Banned)
  {
    hide Run;
    BurstIsCounted(pre, ip, now, n);
  }

  // ----- What `retry_after` is worth -----------------------------------------------

  ghost predicate Asks(c: Command, ip: Ip) {
    c == CheckRate(ip) || c == Gate(ip)
  }

  lemma {:induction false} RecordRests(pre: seq<Timed>, quiet: seq<Timed>, ip: Ip)
    requires forall i :: 0 <= i < |quiet| ==> !Asks(quiet[i].cmd, ip)
    ensures var s, t := Run(pre, false), Run(pre + quiet, false);
            (ip in t.records <==> ip in s.records) && (ip in s.records ==> t.records[ip] == s.records[ip])
    decreases |quiet|
  {
    hide Run;
    if quiet == [] {
      assert pre + quiet == pre;
    } else {
      var last := |quiet| - 1;
      RecordRests(pre, quiet[..last], ip);
      RunThen(pre + quiet[..last], quiet[last]);
      assert pre + quiet == pre + quiet[..last] + [quiet[last]];
    }
  }

  lemma LimitedRecord(s: Guard, ip: Ip, now: nat, wait: int)
    requires Respond(s, CheckRate(ip), now) == Rate(Limited(wait)) && InThePast(s, now)
    ensures var r := Counted(s, ip, now);
            && AfterCheck(s, ip, now).records[ip] == r && r.count > ALLOWED_PER_WINDOW
            && r.windowStart <= now && wait == r.windowStart + 60 - now
  {
  }

  lemma AllowedAgain(kept: Guard, ip: Ip, r: IpRecord, later: nat)
    requires ip in kept.records && kept.records[ip] == r && r.count > ALLOWED_PER_WINDOW
    ensures Respond(kept, CheckRate(ip), later) == Rate(Allowed) <==> later > r.windowStart + 60
  {
  }

  /** A client told to come back in `wait` seconds is let in exactly from one second
      later on, provided that it does not ask in between: at the time it was given it
      is still refused. */
  lemma RetryAfterIsOneSecondShort(pre: seq<Timed>, ip: Ip, now: nat, wait: int, quiet: seq<Timed>, later: nat)
    requires var t := Timed(now, CheckRate(ip));
             Monotone(pre + [t] + quiet + [Timed(later, CheckRate(ip))])
    requires Respond(Run(pre, true), CheckRate(ip), now) == Rate(Limited(wait))
    requires forall i :: 0 <= i < |quiet| ==> !Asks(quiet[i].cmd, ip)
    ensures Respond(Run(pre + [Timed(now, CheckRate(ip))] + quiet, true), CheckRate(ip), later) == Rate(Allowed)
            <==> later > now + wait
  {
    hide Run, Monotone;
    var t, end := Timed(now, CheckRate(ip)), Timed(later, CheckRate(ip));
    var upTo := pre + [t];
    var all := upTo + quiet;
    Prefixes(pre, t, quiet, end);
    CoverNow(pre, now);
    CoverCheck(Run(pre, false), Run(pre, true), ip, now);
    LimitedRecord(Run(pre, false), ip, now, wait);
    RunThen(pre, t);
    RecordRests(upTo, quiet, ip);
    CoverNow(all, later);
    CoverCheck(Run(all, false), Run(all, true), ip, later);
    AllowedAgain(Run(all, false), ip, Counted(Run(pre, false), ip, now), later);
  }

  lemma Prefixes(pre: seq<Timed>, t: Timed, quiet: seq<Timed>, end: Timed)
    requires Monotone(pre + [t] + quiet + [end])
    ensures Monotone(pre) && (pre != [] ==> pre[|pre| - 1].now <= t.now)
    ensures var all := pre + [t] + quiet; Monotone(all) && all != [] && all[|all| - 1].now <= end.now
  {
    var trace := pre + [t] + quiet + [end];
    var all := pre + [t] + quiet;
    assert forall i :: 0 <= i < |all| ==> trace[i] == all[i];
    assert forall i :: 0 <= i < |pre| ==> trace[i] == pre[i];
    assert trace[|pre|] == t && trace[|all|] == end;
  }

  // ----- How long a ban lasts ------------------------------------------------------

  /** Commands that can ban `ip`. */
  ghost predicate MayBan(c: Command, ip: Ip) {
    Asks(c, ip) || (c.BanIp? && c.ip == ip)
  }

  /** The ban on record, or dropped after it ended. */
  ghost predicate BannedUntil(s: Guard, ip: Ip, end: nat, now: nat) {
    if ip in s.bans then s.bans[ip] == end else end <= now
  }

  lemma BannedStep(s: Guard, t: Timed, ip: Ip, end: nat, before: nat)
    requires BannedUntil(s, ip, end, before) && before <= t.now && !MayBan(t.cmd, ip)
    ensures BannedUntil(After(s, t.cmd, t.now), ip, end, t.now)
  {
  }

  lemma {:induction false} BannedRun(pre: seq<Timed>, quiet: seq<Timed>, ip: Ip, end: nat, start: nat)
    requires BannedUntil(Run(pre, true), ip, end, start) && Monotone(quiet)
    requires forall i :: 0 <= i < |quiet| ==> start <= quiet[i].now && !MayBan(quiet[i].cmd, ip)
    ensures BannedUntil(Run(pre + quiet, true), ip, end, if quiet == [] then start else quiet[|quiet| - 1].now)
    decreases |quiet|
  {
    hide Run, After, BannedUntil;
    if quiet == [] {
      assert pre + quiet == pre;
    } else {
      var last := |quiet| - 1;
      BannedRun(pre, quiet[..last], ip, end, start);
      RunThen(pre + quiet[..last], quiet[last]);
      BannedStep(Run(pre + quiet[..last], true), quiet[last], ip, end, if last == 0 then start else quiet[last - 1].now);
      assert pre + quiet == pre + quiet[..last] + [quiet[last]];
    }
  }

  /** When a command bans, and until when: as asked, or for a day past the thousandth request. */
  function BanEnd(s: Guard, t: Timed, ip: Ip): Term {
    match t.cmd
    case BanIp(i, duration) => if i == ip then Until(t.now + duration) else NoBan
    case CheckRate(i) => if i == ip && Counted(s, ip, t.now).count > 1000 then Until(t.now + 86400) else NoBan
    case Gate(i) =>
      if i == ip && !ActiveBan(s, ip, t.now) && Counted(s, ip, t.now).count > 1000 then Until(t.now + 86400) else NoBan
    case _ => NoBan
  }

  datatype Term = Until(end: nat) | NoBan

  /** From the ban on, the IP is reported banned and refused at the gate exactly until
      it ends, whatever clean-ups, queries and other clients come in between. */
  lemma BannedExactlyUntilEnd(pre: seq<Timed>, t: Timed, ip: Ip, quiet: seq<Timed>, now: nat)
    requires BanEnd(Run(pre, true), t, ip).Until? && Monotone(quiet) && t.now <= now
    requires forall i :: 0 <= i < |quiet| ==> t.now <= quiet[i].now <= now && !MayBan(quiet[i].cmd, ip)
    ensures var s, end := Run(pre + [t] + quiet, true), BanEnd(Run(pre, true), t, ip).end;
            && (Respond(s, IsBanned(ip), now) == BanStatus(true) <==> now < end)
            && (Respond(s, Gate(ip), now) == Refused <==> now < end)
  {
    hide Run;
    var end := BanEnd(Run(pre, true), t, ip).end;
    RunThen(pre, t);
    assert BannedUntil(Run(pre + [t], true), ip, end, t.now);
    BannedRun(pre + [t], quiet, ip, end, t.now);
  }
}
