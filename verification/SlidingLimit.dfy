/**
 When "100 requests a minute" holds as a sliding limit: a window that opens keeps
 every minute around it within the limit exactly when the minute before was empty.
 */
module SlidingLimit {
  import opened RateLimits
  import opened RateLimitRuns

  /** Request `t` of `ip` is counted as the first of a new window. */
  ghost predicate Opens(pre: seq<Timed>, t: Timed, ip: Ip) {
    && (t.cmd == CheckRate(ip) || t.cmd == Gate(ip))
    && Respond(Run(pre, true), t.cmd, t.now).Rate?
    && Counted(Run(pre, true), ip, t.now).count == 1
  }

  /** The trace goes on with any commands within the window that `t` opened. */
  ghost predicate WithinWindow(pre: seq<Timed>, t: Timed, more: seq<Timed>) {
    Monotone(pre + [t] + more) && forall i :: 0 <= i < |more| ==> more[i].now <= t.now + WINDOW
  }

  /** The sliding limit in every minute that touches the window opened at `t`. */
  ghost predicate SlidingLimitHolds(pre: seq<Timed>, t: Timed, more: seq<Timed>, ip: Ip) {
    forall at :: at >= t.now - WINDOW ==> InMinute(AllowedTimes(pre + [t] + more, true, ip), at) <= ALLOWED_PER_WINDOW
  }

  lemma MonotonePrefix(trace: seq<Timed>, n: nat)
    requires Monotone(trace) && n <= |trace|
    ensures Monotone(trace[..n])
  {
  }

  /** The record's window and the requests let through before it. */
  ghost predicate WindowOpenedAt(trace: seq<Timed>, ip: Ip, start: nat, earlier: nat) {
    var s, ts := Run(trace, false), AllowedTimes(trace, false, ip);
    && ip in s.records && s.records[ip].windowStart == start
    && CountIn(ts, start - WINDOW, start - 1) == earlier
  }

  lemma WindowStep(trace: seq<Timed>, t: Timed, ip: Ip, start: nat, earlier: nat)
    requires WindowOpenedAt(trace, ip, start, earlier) && start <= t.now <= start + WINDOW
    ensures WindowOpenedAt(trace + [t], ip, start, earlier)
  {
    hide CountIn;
    assert (trace + [t])[..|trace|] == trace;
    CountSnoc(AllowedTimes(trace, false, ip), t.now, start - WINDOW, start - 1);
    assert AllowedTimes(trace, false, ip) + [] == AllowedTimes(trace, false, ip);
  }

  /** Opening a window looks the same without clean-up. */
  lemma OpensNow(pre: seq<Timed>, t: Timed, ip: Ip)
    requires Monotone(pre + [t]) && Opens(pre, t, ip)
    ensures Monotone(pre)
    ensures Counted(Run(pre, true), ip, t.now).windowStart == t.now
    ensures Counted(Run(pre, false), ip, t.now) == Counted(Run(pre, true), ip, t.now)
    ensures Respond(Run(pre, false), t.cmd, t.now) == Respond(Run(pre, true), t.cmd, t.now)
  {
    hide CountIn, Run, AllowedTimes, Covers, InThePast, WindowHistory;
    assert (pre + [t])[..|pre|] == pre;
    MonotonePrefix(pre + [t], |pre|);
    assert pre != [] ==> (pre + [t])[|pre| - 1] == pre[|pre| - 1] && (pre + [t])[|pre|] == t;
    CoverNow(pre, t.now);
    CoverStep(Run(pre, false), Run(pre, true), t);
    CoverCheck(Run(pre, false), Run(pre, true), ip, t.now);
    HistoryRun(pre, ip);
  }

  lemma WindowOpens(pre: seq<Timed>, t: Timed, ip: Ip)
    requires Monotone(pre + [t]) && Opens(pre, t, ip)
    ensures WindowOpenedAt(pre + [t], ip, t.now, CountIn(AllowedTimes(pre, true, ip), t.now - WINDOW, t.now - 1))
  {
    hide CountIn;
    OpensNow(pre, t, ip);
    AllowedTimesSame(pre, ip);
    assert (pre + [t])[..|pre|] == pre;
    var ts := AllowedTimes(pre, false, ip);
    CountSnoc(ts, t.now, t.now - WINDOW, t.now - 1);
    assert ts + [] == ts;
  }

  lemma {:induction false} WindowStays(pre: seq<Timed>, t: Timed, more: seq<Timed>, ip: Ip)
    requires Opens(pre, t, ip) && WithinWindow(pre, t, more)
    ensures WindowOpenedAt(pre + [t] + more, ip, t.now,
                           CountIn(AllowedTimes(pre, true, ip), t.now - WINDOW, t.now - 1))
    decreases |more|
  {
    hide WindowOpenedAt, Opens;
    var all := pre + [t] + more;
    if more == [] {
      assert all == pre + [t];
      WindowOpens(pre, t, ip);
    } else {
      var last := |more| - 1;
      var shorter := pre + [t] + more[..last];
      assert all == shorter + [more[last]];
      MonotonePrefix(all, |shorter|);
      assert all[..|shorter|] == shorter;
      WindowStays(pre, t, more[..last], ip);
      assert all[|pre|] == t && all[|shorter|] == more[last];
      WindowStep(shorter, more[last], ip, t.now,
                 CountIn(AllowedTimes(pre, true, ip), t.now - WINDOW, t.now - 1));
    }
  }

  lemma EmptyMinuteSuffices(pre: seq<Timed>, t: Timed, more: seq<Timed>, ip: Ip)
    requires Opens(pre, t, ip) && WithinWindow(pre, t, more)
    requires CountIn(AllowedTimes(pre, true, ip), t.now - WINDOW, t.now - 1) == 0
    ensures SlidingLimitHolds(pre, t, more, ip)
  {
    hide Run, AllowedTimes, CountIn, Opens;
    var all, start := pre + [t] + more, t.now as int;
    WindowStays(pre, t, more, ip);
    HistoryRun(all, ip);
    AllowedTimesSame(all, ip);
    var ts := AllowedTimes(all, true, ip);
    forall at | at >= start - WINDOW ensures InMinute(ts, at) <= ALLOWED_PER_WINDOW {
      if at > start {
        AtMost100InsideWindow(all, ip, at);
      } else {
        CountSplit(ts, at, start, at + WINDOW);
        CountWider(ts, at, start - 1, start - WINDOW, start - 1);
        CountWider(ts, start, at + WINDOW, start, start + WINDOW);
      }
    }
  }

  /** With a request in the minute before, a hundred at once exceed the limit. */
  lemma BurstExceeds(pre: seq<Timed>, t: Timed, ip: Ip)
    requires Monotone(pre + [t]) && Opens(pre, t, ip)
    requires CountIn(AllowedTimes(pre, true, ip), t.now - WINDOW, t.now - 1) > 0
    ensures var more := Burst(ip, t.now, ALLOWED_PER_WINDOW - 1);
            WithinWindow(pre, t, more) && !SlidingLimitHolds(pre, t, more, ip)
  {
    hide Run, AllowedTimes, CountIn, WindowOpenedAt;
    var now := t.now as int;
    var more := Burst(ip, t.now, ALLOWED_PER_WINDOW - 1);
    var ts := AllowedTimes(pre, true, ip);
    CountSplit(ts, now - WINDOW, now, now);
    RequestPasses(pre, t, ip, now - WINDOW, now);
    OpensNow(pre, t, ip);
    BurstPasses(pre + [t], ip, t.now, ALLOWED_PER_WINDOW - 1, Run(pre + [t], true).records[ip], now - WINDOW, now);
    assert InMinute(AllowedTimes(pre + [t] + more, true, ip), now - WINDOW) > ALLOWED_PER_WINDOW;
    var all := pre + [t] + more;
    assert forall i :: 0 <= i < |pre| ==> all[i] == (pre + [t])[i];
    assert forall i :: |pre| <= i < |all| ==> all[i].now == t.now;
    assert (pre + [t])[|pre|] == t;
  }

  /** However the trace goes on within the window that `t` opened, the sliding limit
      of 100 holds in every minute that touches it, exactly when none of the IP's
      requests was let through in the 60 seconds before. */
  lemma SlidingLimitExactlyWhen(pre: seq<Timed>, t: Timed, ip: Ip)
    requires Monotone(pre + [t]) && Opens(pre, t, ip)
    ensures (forall more :: WithinWindow(pre, t, more) ==> SlidingLimitHolds(pre, t, more, ip)) <==>
            CountIn(AllowedTimes(pre, true, ip), t.now - WINDOW, t.now - 1) == 0
  {
    hide CountIn, AllowedTimes, Opens, WithinWindow, SlidingLimitHolds;
    if CountIn(AllowedTimes(pre, true, ip), t.now - WINDOW, t.now - 1) == 0 {
      forall more | WithinWindow(pre, t, more) ensures SlidingLimitHolds(pre, t, more, ip) {
        EmptyMinuteSuffices(pre, t, more, ip);
      }
    } else {
      BurstExceeds(pre, t, ip);
    }
  }
}
