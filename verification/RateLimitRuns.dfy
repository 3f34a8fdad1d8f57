/** The limiters over whole traces with a clock that does not run backwards. */
module RateLimitRuns {
  import opened RateLimits

  datatype Timed = Timed(now: nat, cmd: Command)

  ghost predicate Monotone(trace: seq<Timed>) {
    forall i, j :: 0 <= i <= j < |trace| ==> trace[i].now <= trace[j].now
  }

  const FRESH := Guard(map[], map[])

  /** With `cleaning` off, clean-up calls have no effect. */
  ghost function Step(s: Guard, t: Timed, cleaning: bool): Guard {
    if t.cmd.Cleanup? && !cleaning then s else After(s, t.cmd, t.now)
  }

  ghost function Run(trace: seq<Timed>, cleaning: bool): Guard {
    if trace == [] then FRESH else Step(Run(trace[..|trace| - 1], cleaning), trace[|trace| - 1], cleaning)
  }

  ghost function Responses(trace: seq<Timed>, cleaning: bool): (rs: seq<Response>)
    ensures |rs| == |trace|
  {
    if trace == [] then [] else
      var last := |trace| - 1;
      Responses(trace[..last], cleaning) + [Respond(Run(trace[..last], cleaning), trace[last].cmd, trace[last].now)]
  }

  // ----- Clean-up cannot be observed ------------------------------------------

  ghost predicate InThePast(s: Guard, now: nat) {
    forall ip :: ip in s.records ==> s.records[ip].windowStart <= s.records[ip].lastSeen <= now
  }

  /** `kept` is `s` with the entries that clean-up has dropped: records no longer
      counting and bans no longer in force. */
  ghost predicate Covers(kept: Guard, s: Guard, now: nat) {
    && (forall ip :: ip in s.records ==> ip in kept.records && kept.records[ip] == s.records[ip])
    && (forall ip :: ip in kept.records && ip !in s.records ==> now - kept.records[ip].lastSeen >= STALE_SECS)
    && (forall ip :: ip in s.bans ==> ip in kept.bans && kept.bans[ip] == s.bans[ip])
    && (forall ip :: ip in kept.bans && ip !in s.bans ==> kept.bans[ip] <= now)
  }

  lemma CoverLater(kept: Guard, s: Guard, now: nat, later: nat)
    requires Covers(kept, s, now) && InThePast(kept, now) && now <= later
    ensures Covers(kept, s, later) && InThePast(kept, later)
  {
  }

  lemma CoverCheck(kept: Guard, s: Guard, ip: Ip, now: nat)
    requires Covers(kept, s, now) && InThePast(kept, now)
    ensures Counted(kept, ip, now) == Counted(s, ip, now)
    ensures Covers(AfterCheck(kept, ip, now), AfterCheck(s, ip, now), now) && InThePast(AfterCheck(kept, ip, now), now)
  {
  }

  lemma CoverIsBanned(kept: Guard, s: Guard, ip: Ip, now: nat)
    requires Covers(kept, s, now) && InThePast(kept, now)
    ensures ActiveBan(kept, ip, now) == ActiveBan(s, ip, now)
    ensures Covers(AfterIsBanned(kept, ip, now), AfterIsBanned(s, ip, now), now)
    ensures InThePast(AfterIsBanned(kept, ip, now), now)
    ensures AfterIsBanned(s, ip, now).records == s.records
  {
  }

  lemma CoverStep(kept: Guard, s: Guard, t: Timed)
    requires Covers(kept, s, t.now) && InThePast(kept, t.now)
    ensures Respond(kept, t.cmd, t.now) == Respond(s, t.cmd, t.now)
    ensures Covers(Step(kept, t, false), Step(s, t, true), t.now) && InThePast(Step(kept, t, false), t.now)
  {
    hide AfterCheck, AfterIsBanned, Counted, Verdict;
    match t.cmd {
      case CheckRate(ip) => CoverCheck(kept, s, ip, t.now);
      case IsBanned(ip) => CoverIsBanned(kept, s, ip, t.now);
      case BanIp(_, _) =>
      case Gate(ip) =>
        CoverIsBanned(kept, s, ip, t.now);
        if !ActiveBan(s, ip, t.now) {
          CoverCheck(AfterIsBanned(kept, ip, t.now), AfterIsBanned(s, ip, t.now), ip, t.now);
          CoverCheck(kept, s, ip, t.now);
        }
      case Cleanup =>
    }
  }

  lemma {:induction false} CoverRun(trace: seq<Timed>)
    requires Monotone(trace)
    ensures Responses(trace, true) == Responses(trace, false)
    ensures var now := if trace == [] then 0 else trace[|trace| - 1].now;
            Covers(Run(trace, false), Run(trace, true), now) && InThePast(Run(trace, false), now)
    decreases |trace|
  {
    hide Step, Respond, Covers, InThePast;
    if trace == [] {
      CoverFresh();
    } else {
      var last := |trace| - 1;
      CoverRun(trace[..last]);
      var before := if last == 0 then 0 else trace[last - 1].now;
      CoverLater(Run(trace[..last], false), Run(trace[..last], true), before, trace[last].now);
      CoverStep(Run(trace[..last], false), Run(trace[..last], true), trace[last]);
    }
  }

  lemma CoverFresh()
    ensures Covers(FRESH, FRESH, 0) && InThePast(FRESH, 0)
  {
  }

  /** Clean-up is unobservable: every rate and ban decision of every trace is the
      one that would be made if clean-up were never called. */
  lemma CleanupIsUnobservable(trace: seq<Timed>)
    requires Monotone(trace)
    ensures Responses(trace, true) == Responses(trace, false)
  {
    CoverRun(trace);
  }

  /** No subtraction of times goes below zero on the way, and a limited client is
      told to come back within the minute. */
  lemma ClockNeverUnderflows(trace: seq<Timed>, now: nat, ip: Ip)
    requires Monotone(trace) && (trace != [] ==> trace[|trace| - 1].now <= now)
    ensures InThePast(Run(trace, true), now)
    ensures var v := Verdict(Counted(Run(trace, true), ip, now), now);
            v.Limited? ==> 0 <= v.retryAfter <= WINDOW
  {
    CoverRun(trace);
  }

  // ----- How many requests pass -----------------------------------------------

  /** Times at which requests of `ip` were let through. */
  ghost function AllowedTimes(trace: seq<Timed>, cleaning: bool, ip: Ip): seq<int> {
    if trace == [] then [] else
      var last := |trace| - 1;
      AllowedTimes(trace[..last], cleaning, ip)
      + if Passes(trace[last], Respond(Run(trace[..last], cleaning), trace[last].cmd, trace[last].now), ip)
        then [trace[last].now] else []
  }

  ghost predicate Passes(t: Timed, r: Response, ip: Ip) {
    (t.cmd.CheckRate? || t.cmd.Gate?) && t.cmd.ip == ip && r == Rate(Allowed)
  }

  ghost function CountIn(ts: seq<int>, lo: int, hi: int): nat {
    if ts == [] then 0 else
      CountIn(ts[..|ts| - 1], lo, hi) + if lo <= ts[|ts| - 1] <= hi then 1 else 0
  }

  lemma CountSnoc(ts: seq<int>, t: int, lo: int, hi: int)
    ensures CountIn(ts + [t], lo, hi) == CountIn(ts, lo, hi) + if lo <= t <= hi then 1 else 0
  {
    assert (ts + [t])[..|ts|] == ts;
  }

  lemma {:induction false} CountSplit(ts: seq<int>, lo: int, mid: int, hi: int)
    requires lo <= mid <= hi + 1
    ensures CountIn(ts, lo, hi) == CountIn(ts, lo, mid - 1) + CountIn(ts, mid, hi)
    decreases |ts|
  {
    if ts != [] {
      CountSplit(ts[..|ts| - 1], lo, mid, hi);
    }
  }

  lemma {:induction false} CountWider(ts: seq<int>, lo: int, hi: int, lo': int, hi': int)
    requires lo' <= lo && hi <= hi'
    ensures CountIn(ts, lo, hi) <= CountIn(ts, lo', hi')
    decreases |ts|
  {
    if ts != [] {
      CountWider(ts[..|ts| - 1], lo, hi, lo', hi');
    }
  }

  ghost predicate AllAtMost(ts: seq<int>, hi: int) {
    forall i :: 0 <= i < |ts| ==> ts[i] <= hi
  }

  lemma {:induction false} CountNone(ts: seq<int>, lo: int, hi: int)
    requires AllAtMost(ts, lo - 1)
    ensures CountIn(ts, lo, hi) == 0
    decreases |ts|
  {
    if ts != [] {
      CountNone(ts[..|ts| - 1], lo, hi);
    }
  }

  /** Requests let through in the closed minute that begins at `t`. */
  ghost function InMinute(ts: seq<int>, t: int): nat {
    CountIn(ts, t, t + WINDOW)
  }

  /** The history `ts` of one IP against its current window: the window, begun at
      `start`, has let through `passed` requests, the first at its start; at most
      99 more lie in the minute before; no minute ever holds more than 199. */
  ghost predicate WindowHistory(ts: seq<int>, start: int, passed: nat) {
    && AllAtMost(ts, start + WINDOW)
    && CountIn(ts, start, start + WINDOW) == passed <= ALLOWED_PER_WINDOW
    && CountIn(ts, start, start) >= 1
    && CountIn(ts, start - WINDOW, start - 1) <= ALLOWED_PER_WINDOW - 1
    && forall t :: InMinute(ts, t) <= 2 * ALLOWED_PER_WINDOW - 1
  }

  lemma FirstWindow(now: int)
    ensures WindowHistory([now], now, 1)
  {
    assert CountIn([], 0, 0) == 0;
    forall lo, hi ensures CountIn([now], lo, hi) == if lo <= now <= hi then 1 else 0 {
      assert [now][..0] == [];
    }
  }

  /** After a window's first request at `start`, at most 99 of its requests are left. */
  lemma CountBeyond(ts: seq<int>, start: int, passed: nat, lo: int, hi: int)
    requires start < lo && WindowHistory(ts, start, passed)
    ensures CountIn(ts, lo, hi) <= ALLOWED_PER_WINDOW - 1
  {
    CountSplit(ts, start, start + 1, start + WINDOW);
    var top := if hi < start + WINDOW then start + WINDOW else hi;
    CountWider(ts, lo, hi, start + 1, top);
    CountSplit(ts, start + 1, start + WINDOW + 1, top);
    CountNone(ts, start + WINDOW + 1, top);
  }

  /** A request that opens a new window. */
  lemma NextWindow(ts: seq<int>, start: int, passed: nat, now: int)
    requires WindowHistory(ts, start, passed) && now > start + WINDOW
    ensures WindowHistory(ts + [now], now, 1)
  {
    var ts' := ts + [now];
    CountNone(ts, now, now + WINDOW);
    CountNone(ts, now, now);
    CountSnoc(ts, now, now, now + WINDOW);
    CountSnoc(ts, now, now, now);
    CountSnoc(ts, now, now - WINDOW, now - 1);
    CountBeyond(ts, start, passed, now - WINDOW, now - 1);
    forall t ensures InMinute(ts', t) <= 2 * ALLOWED_PER_WINDOW - 1 {
      CountSnoc(ts, now, t, t + WINDOW);
      assert InMinute(ts, t) <= 2 * ALLOWED_PER_WINDOW - 1;
      if t <= now <= t + WINDOW {
        CountBeyond(ts, start, passed, t, t + WINDOW);
      }
    }
  }

  /** One more request let through inside the current window. */
  lemma SameWindow(ts: seq<int>, start: int, passed: nat, now: int)
    requires WindowHistory(ts, start, passed) && start <= now <= start + WINDOW
    requires passed < ALLOWED_PER_WINDOW
    ensures WindowHistory(ts + [now], start, passed + 1)
  {
    var ts' := ts + [now];
    CountSnoc(ts, now, start, start + WINDOW);
    CountSnoc(ts, now, start, start);
    CountSnoc(ts, now, start - WINDOW, start - 1);
    forall t ensures InMinute(ts', t) <= 2 * ALLOWED_PER_WINDOW - 1 {
      CountSnoc(ts, now, t, t + WINDOW);
      assert InMinute(ts, t) <= 2 * ALLOWED_PER_WINDOW - 1;
      if t <= now <= t + WINDOW {
        MinuteAround(ts, start, passed, now, t);
      }
    }
  }

  lemma MinuteAround(ts: seq<int>, start: int, passed: nat, now: int, t: int)
    requires WindowHistory(ts, start, passed) && start <= now <= start + WINDOW && t <= now <= t + WINDOW
    ensures CountIn(ts, t, t + WINDOW) <= ALLOWED_PER_WINDOW - 1 + passed
  {
    if t > start {
      CountBeyond(ts, start, passed, t, t + WINDOW);
    } else {
      CountSplit(ts, t, start, t + WINDOW);
      CountWider(ts, t, start - 1, start - WINDOW, start - 1);
      CountWider(ts, start, t + WINDOW, start, start + WINDOW);
    }
  }

  ghost predicate History(ts: seq<int>, s: Guard, ip: Ip) {
    if ip !in s.records then ts == [] else
      var r := s.records[ip];
      r.count >= 1
      && WindowHistory(ts, r.windowStart, if r.count <= ALLOWED_PER_WINDOW then r.count else ALLOWED_PER_WINDOW)
  }

  lemma HistoryCheck(ts: seq<int>, s: Guard, ip: Ip, now: nat)
    requires History(ts, s, ip) && InThePast(s, now)
    ensures History(if Verdict(Counted(s, ip, now), now).Allowed? then ts + [now] else ts, AfterCheck(s, ip, now), ip)
  {
    hide WindowHistory;
    if ip !in s.records {
      FirstWindow(now);
      assert [] + [now as int] == [now];
    } else {
      var r := s.records[ip];
      var passed := if r.count <= ALLOWED_PER_WINDOW then r.count else ALLOWED_PER_WINDOW;
      if now - r.windowStart > WINDOW {
        NextWindow(ts, r.windowStart, passed, now);
      } else if r.count < ALLOWED_PER_WINDOW {
        SameWindow(ts, r.windowStart, passed, now);
      }
    }
  }

  lemma HistoryStep(ts: seq<int>, s: Guard, ip: Ip, t: Timed)
    requires History(ts, s, ip) && InThePast(s, t.now)
    ensures var passed := Passes(t, Respond(s, t.cmd, t.now), ip);
            History(if passed then ts + [t.now] else ts, Step(s, t, false), ip)
  {
    hide WindowHistory;
    if (t.cmd.CheckRate? || t.cmd.Gate?) && t.cmd.ip == ip && Respond(s, t.cmd, t.now).Rate? {
      var s0 := if t.cmd.Gate? then AfterIsBanned(s, ip, t.now) else s;
      assert s0.records == s.records && Counted(s0, ip, t.now) == Counted(s, ip, t.now);
      HistoryCheck(ts, s0, ip, t.now);
    }
  }

  lemma {:induction false} HistoryRun(trace: seq<Timed>, ip: Ip)
    requires Monotone(trace)
    ensures History(AllowedTimes(trace, false, ip), Run(trace, false), ip)
    decreases |trace|
  {
    hide Step, Respond, History, InThePast, Covers;
    if trace == [] {
      HistoryFresh(ip);
    } else {
      var last := |trace| - 1;
      HistoryRun(trace[..last], ip);
      CoverRun(trace[..last]);
      var before := if last == 0 then 0 else trace[last - 1].now;
      CoverLater(Run(trace[..last], false), Run(trace[..last], true), before, trace[last].now);
      var ts := AllowedTimes(trace[..last], false, ip);
      HistoryStep(ts, Run(trace[..last], false), ip, trace[last]);
      assert ts + [] == ts;
    }
  }

  lemma HistoryFresh(ip: Ip)
    ensures History([], FRESH, ip)
  {
  }

  lemma {:induction false} AllowedTimesSame(trace: seq<Timed>, ip: Ip)
    requires Monotone(trace)
    ensures AllowedTimes(trace, true, ip) == AllowedTimes(trace, false, ip)
    decreases |trace|
  {
    if trace != [] {
      var last := |trace| - 1;
      AllowedTimesSame(trace[..last], ip);
      CoverRun(trace);
      assert Responses(trace, true)[last] == Responses(trace, false)[last];
    }
  }

  /** In every trace, with clean-up at any times, at most 199 requests of an IP are
      let through in any closed interval of 60 seconds. */
  lemma AtMost199PerMinute(trace: seq<Timed>, ip: Ip, t: int)
    requires Monotone(trace)
    ensures CountIn(AllowedTimes(trace, true, ip), t, t + WINDOW) <= 199
  {
    AllowedTimesSame(trace, ip);
    HistoryRun(trace, ip);
    assert InMinute(AllowedTimes(trace, false, ip), t) == CountIn(AllowedTimes(trace, false, ip), t, t + WINDOW);
    if ip !in Run(trace, false).records {
      assert CountIn([], t, t + WINDOW) == 0;
    }
  }

  /** Only minutes that reach back over a window's start can hold more than 100. */
  lemma AtMost100InsideWindow(trace: seq<Timed>, ip: Ip, t: int)
    requires Monotone(trace) && ip in Run(trace, false).records && t >= Run(trace, false).records[ip].windowStart
    ensures CountIn(AllowedTimes(trace, true, ip), t, t + WINDOW) <= ALLOWED_PER_WINDOW
  {
    hide Run, AllowedTimes, CountIn;
    AllowedTimesSame(trace, ip);
    HistoryRun(trace, ip);
    var ts, start := AllowedTimes(trace, false, ip), Run(trace, false).records[ip].windowStart as int;
    CountWider(ts, t, t + WINDOW, start, t + WINDOW);
    CountSplit(ts, start, start + WINDOW + 1, t + WINDOW);
    CountNone(ts, start + WINDOW + 1, t + WINDOW);
  }

  // ----- The bound is met ------------------------------------------------------

  /** One more request that passes. */
  lemma RequestPasses(pre: seq<Timed>, t: Timed, ip: Ip, lo: int, hi: int)
    requires Passes(t, Respond(Run(pre, true), t.cmd, t.now), ip)
    ensures var more := pre + [t];
            && ip in Run(more, true).records && Run(more, true).records[ip] == Counted(Run(pre, true), ip, t.now)
            && CountIn(AllowedTimes(more, true, ip), lo, hi)
               == CountIn(AllowedTimes(pre, true, ip), lo, hi) + if lo <= t.now <= hi then 1 else 0
  {
    assert (pre + [t])[..|pre|] == pre;
    CountSnoc(AllowedTimes(pre, true, ip), t.now, lo, hi);
  }

  /** `n` requests at one time. */
  ghost function Burst(ip: Ip, now: nat, n: nat): (b: seq<Timed>)
    ensures |b| == n && forall i :: 0 <= i < n ==> b[i] == Timed(now, CheckRate(ip))
  {
    if n == 0 then [] else Burst(ip, now, n - 1) + [Timed(now, CheckRate(ip))]
  }

  /** A burst in the current window passes while the count stays within 100. */
  lemma {:induction false} BurstPasses(pre: seq<Timed>, ip: Ip, now: nat, n: nat, r: IpRecord, lo: int, hi: int)
    requires ip in Run(pre, true).records && Run(pre, true).records[ip] == r
    requires r.windowStart <= now <= r.windowStart + WINDOW && r.count + n <= ALLOWED_PER_WINDOW && lo <= now <= hi
    ensures var s := Run(pre + Burst(ip, now, n), true);
            && ip in s.records && s.records[ip].count == r.count + n && s.records[ip].windowStart == r.windowStart
            && CountIn(AllowedTimes(pre + Burst(ip, now, n), true, ip), lo, hi)
               == CountIn(AllowedTimes(pre, true, ip), lo, hi) + n
  {
    hide Run, AllowedTimes, CountIn;
    if n == 0 {
      assert pre + Burst(ip, now, 0) == pre;
    } else {
      BurstPasses(pre, ip, now, n - 1, r, lo, hi);
      var mid := pre + Burst(ip, now, n - 1);
      RequestPasses(mid, Timed(now, CheckRate(ip)), ip, lo, hi);
      assert pre + Burst(ip, now, n) == mid + [Timed(now, CheckRate(ip))];
    }
  }

  lemma RunFresh(ip: Ip, lo: int, hi: int)
    ensures Run([], true) == FRESH && CountIn(AllowedTimes([], true, ip), lo, hi) == 0
  {
  }

  /** One request opens a window, 99 follow at its end, and the next window lets a
      hundred through a second later: 199 within a minute, so the bound is exact
      and "100 requests a minute, sliding" is not what the limiter enforces. */
  lemma OneHundredNinetyNineInAMinute(ip: Ip)
    ensures exists trace :: Monotone(trace) && CountIn(AllowedTimes(trace, true, ip), 60, 60 + WINDOW) == 199
  {
    hide Run, AllowedTimes, CountIn, Burst;
    var first := [] + [Timed(0, CheckRate(ip))];
    var second := first + Burst(ip, 60, 99);
    var third := second + [Timed(61, CheckRate(ip))];
    var trace := third + Burst(ip, 61, 99);
    RunFresh(ip, 60, 120);
    RequestPasses([], Timed(0, CheckRate(ip)), ip, 60, 120);
    BurstPasses(first, ip, 60, 99, Run(first, true).records[ip], 60, 120);
    RequestPasses(second, Timed(61, CheckRate(ip)), ip, 60, 120);
    BurstPasses(third, ip, 61, 99, Run(third, true).records[ip], 60, 120);
    assert Monotone(trace) by {
      forall i | 0 <= i < |trace|
        ensures trace[i].now == if i == 0 then 0 else if i <= 99 then 60 else 61
      {
      }
    }
  }

  // ----- Behind the ban gate ---------------------------------------------------

  /** Only the handler's gate and clean-up: no direct calls, no manual bans. */
  ghost predicate GateOnly(trace: seq<Timed>) {
    forall i :: 0 <= i < |trace| ==> trace[i].cmd.Gate? || trace[i].cmd.Cleanup?
  }

  /** A count past the threshold comes with a ban that outlives the window. */
  ghost predicate BanFollowsCount(s: Guard, ip: Ip, now: nat) {
    ip in s.records && s.records[ip].count > BAN_THRESHOLD ==>
      && s.records[ip].count == BAN_THRESHOLD + 1
      && (now >= s.records[ip].windowStart + BAN_SECS
          || (ip in s.bans && s.bans[ip] >= s.records[ip].windowStart + BAN_SECS))
  }

  lemma GateStep(s: Guard, t: Timed, ip: Ip)
    requires BanFollowsCount(s, ip, t.now) && InThePast(s, t.now) && (t.cmd.Gate? || t.cmd.Cleanup?)
    ensures BanFollowsCount(Step(s, t, true), ip, t.now) && InThePast(Step(s, t, true), t.now)
  {
  }

  /** Behind the gate a window never counts past 1001: the request that exceeds
      1000 bans the IP, and the ban outlives the window. */
  lemma {:induction false} GateCountsTo1001(trace: seq<Timed>, ip: Ip, now: nat)
    requires Monotone(trace) && GateOnly(trace) && (trace != [] ==> trace[|trace| - 1].now <= now)
    ensures BanFollowsCount(Run(trace, true), ip, now) && InThePast(Run(trace, true), now)
    ensures ip in Run(trace, true).records ==> Run(trace, true).records[ip].count <= BAN_THRESHOLD + 1
    decreases |trace|
  {
    hide Step;
    if trace != [] {
      var last := |trace| - 1;
      GateCountsTo1001(trace[..last], ip, trace[last].now);
      GateStep(Run(trace[..last], true), trace[last], ip);
    }
  }

  lemma BanStep(s: Guard, t: Timed, ip: Ip)
    requires ip in s.bans && t.now < s.bans[ip] && (t.cmd.Gate? || t.cmd.Cleanup?)
    ensures var s' := Step(s, t, true); ip in s'.bans && s'.bans[ip] == s.bans[ip]
    ensures t.cmd == Gate(ip) ==> Respond(s, t.cmd, t.now) == Refused
  {
  }

  lemma RunSnoc(pre: seq<Timed>, later: seq<Timed>)
    requires later != []
    ensures var last := |later| - 1;
            && Run(pre + later, true) == Step(Run(pre + later[..last], true), later[last], true)
            && Responses(pre + later, true)
               == Responses(pre + later[..last], true)
                  + [Respond(Run(pre + later[..last], true), later[last].cmd, later[last].now)]
  {
    var last := |later| - 1;
    assert (pre + later)[..|pre| + last] == pre + later[..last];
    assert (pre + later)[|pre| + last] == later[last];
  }

  /** Once banned at the gate, every request is refused until the ban expires. */
  lemma {:induction false} BanHoldsUntilExpiry(pre: seq<Timed>, later: seq<Timed>, ip: Ip)
    requires ip in Run(pre, true).bans && GateOnly(later)
    requires forall i :: 0 <= i < |later| ==> later[i].now < Run(pre, true).bans[ip]
    ensures var s := Run(pre + later, true); ip in s.bans && s.bans[ip] == Run(pre, true).bans[ip]
    ensures forall i :: 0 <= i < |later| && later[i].cmd == Gate(ip) ==> Responses(pre + later, true)[|pre| + i] == Refused
    decreases |later|
  {
    hide Run, Responses, Step, Respond;
    if later == [] {
      assert pre + later == pre;
    } else {
      var last := |later| - 1;
      BanHoldsUntilExpiry(pre, later[..last], ip);
      RunSnoc(pre, later);
      BanStep(Run(pre + later[..last], true), later[last], ip);
      forall i | 0 <= i < |later| && later[i].cmd == Gate(ip)
        ensures Responses(pre + later, true)[|pre| + i] == Refused
      {
        if i < last {
          assert later[..last][i] == later[i];
        }
      }
    }
  }

  // ----- The limiter of security.rs --------------------------------------------

  /** The same trace of checks and clean-ups on the simpler limiter. */
  ghost function SlotRun(trace: seq<Timed>): map<Ip, Slot> {
    if trace == [] then map[] else SlotStep(SlotRun(trace[..|trace| - 1]), trace[|trace| - 1])
  }

  ghost function SlotStep(m: map<Ip, Slot>, t: Timed): map<Ip, Slot> {
    match t.cmd
    case CheckRate(ip) => m[ip := CountedSlot(m, ip, t.now)]
    case Cleanup => FreshSlots(m, t.now)
    case _ => m
  }

  ghost predicate ChecksOnly(trace: seq<Timed>) {
    forall i :: 0 <= i < |trace| ==> trace[i].cmd.CheckRate? || trace[i].cmd.Cleanup?
  }

  ghost predicate SlotsMatch(m: map<Ip, Slot>, kept: Guard, now: nat) {
    && (forall ip :: ip in m ==> ip in kept.records)
    && (forall ip :: ip in m ==> m[ip] == Slot(kept.records[ip].count, kept.records[ip].windowStart))
    && forall ip :: ip in kept.records && ip !in m ==> now - kept.records[ip].windowStart >= STALE_SECS
  }

  lemma SlotsStep(m: map<Ip, Slot>, kept: Guard, t: Timed, later: nat)
    requires SlotsMatch(m, kept, t.now) && InThePast(kept, t.now) && t.now <= later
    requires t.cmd.CheckRate? || t.cmd.Cleanup?
    ensures SlotsMatch(SlotStep(m, t), Step(kept, t, false), later) && InThePast(Step(kept, t, false), later)
  {
  }

  lemma {:induction false} SlotsFollowGuard(trace: seq<Timed>, now: nat)
    requires Monotone(trace) && ChecksOnly(trace) && (trace != [] ==> trace[|trace| - 1].now <= now)
    ensures SlotsMatch(SlotRun(trace), Run(trace, false), now) && InThePast(Run(trace, false), now)
    decreases |trace|
  {
    hide SlotsMatch, InThePast, Step;
    if trace == [] {
      SlotsFresh(now);
    } else {
      var last := |trace| - 1;
      SlotsFollowGuard(trace[..last], trace[last].now);
      SlotsStep(SlotRun(trace[..last]), Run(trace[..last], false), trace[last], now);
    }
  }

  lemma SlotsFresh(now: nat)
    ensures SlotsMatch(map[], FRESH, now) && InThePast(FRESH, now)
  {
  }

  /** The simpler limiter, cleaned up on its own rule, answers every check as the
      guard does that is never cleaned up. So its clean-up is unobservable too, and
      the bound of 199 a minute is also its bound. */
  lemma SameRequestsPass(trace: seq<Timed>, ip: Ip, now: nat)
    requires Monotone(trace) && ChecksOnly(trace) && (trace != [] ==> trace[|trace| - 1].now <= now)
    ensures CountedSlot(SlotRun(trace), ip, now).count <= ALLOWED_PER_WINDOW
            <==> Respond(Run(trace, false), CheckRate(ip), now) == Rate(Allowed)
    ensures Respond(Run(trace, false), CheckRate(ip), now) == Respond(Run(trace, true), CheckRate(ip), now)
  {
    hide *;
    SlotsFollowGuard(trace, now);
    CoverNow(trace, now);
    SlotCounts(SlotRun(trace), Run(trace, false), Run(trace, true), ip, now);
  }

  lemma SlotCounts(m: map<Ip, Slot>, kept: Guard, s: Guard, ip: Ip, now: nat)
    requires SlotsMatch(m, kept, now) && InThePast(kept, now) && Covers(kept, s, now)
    ensures CountedSlot(m, ip, now).count <= ALLOWED_PER_WINDOW <==> Respond(kept, CheckRate(ip), now) == Rate(Allowed)
    ensures Respond(kept, CheckRate(ip), now) == Respond(s, CheckRate(ip), now)
  {
    CoverCheck(kept, s, ip, now);
  }

  lemma CoverNow(trace: seq<Timed>, now: nat)
    requires Monotone(trace) && (trace != [] ==> trace[|trace| - 1].now <= now)
    ensures Covers(Run(trace, false), Run(trace, true), now) && InThePast(Run(trace, false), now)
  {
    hide Run, Covers, InThePast;
    CoverRun(trace);
    CoverLater(Run(trace, false), Run(trace, true), if trace == [] then 0 else trace[|trace| - 1].now, now);
  }
}
