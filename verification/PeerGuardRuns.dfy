/** Peer reputation and bans over runs of timed events. */
module PeerGuardRuns {
  import opened Common
  import opened PeerGuard

  datatype Timed = Timed(now: nat, cmd: Command)

  ghost predicate Monotone(trace: seq<Timed>) {
    forall i, j :: 0 <= i <= j < |trace| ==> trace[i].now <= trace[j].now
  }

  ghost function Run(s: Guard, trace: seq<Timed>): Guard {
    if trace == [] then s else
      After(Run(s, trace[..|trace| - 1]), trace[|trace| - 1].cmd, trace[|trace| - 1].now)
  }

  const EMPTY := Guard(map[], map[])

  lemma RunSnoc(s: Guard, trace: seq<Timed>, t: Timed)
    ensures Run(s, trace + [t]) == After(Run(s, trace), t.cmd, t.now)
  {
    assert (trace + [t])[..|trace|] == trace;
  }

  /** Score and failure count of a tracked peer bound each other. */
  ghost predicate RecordOk(r: PeerRecord) {
    && r.failedHandshakes <= 4
    && 1 - 10 * r.failedHandshakes <= r.score <= 100
  }

  ghost predicate RecordsOk(s: Guard) {
    forall p :: p in s.scores ==> RecordOk(s.scores[p])
  }

  /** Over any events at any times, a tracked peer has at most four failed
      handshakes and a score between 1 - 10 * failures and 100, so at least -39:
      the fifth failure and the violation that would go lower both ban instead. */
  lemma {:induction false} ScoresStayBounded(trace: seq<Timed>)
    ensures RecordsOk(Run(EMPTY, trace))
    ensures forall p :: p in Run(EMPTY, trace).scores ==> -39 <= Run(EMPTY, trace).scores[p].score
    decreases |trace|
  {
    if trace != [] {
      ScoresStayBounded(trace[..|trace| - 1]);
    }
  }

  /** The lower bound is met: a connection, two violations and four failures. */
  lemma LowestScoreIsReached(p: PeerId)
    ensures exists trace: seq<Timed> ::
              p in Run(EMPTY, trace).scores && Run(EMPTY, trace).scores[p].score == -39
  {
    var c, v, f := Timed(0, OnConnected(p)), Timed(0, OnProtocolViolation(p)), Timed(0, OnFailedHandshake(p));
    var low := [] + [c] + [v] + [v];
    RunSnoc(EMPTY, [], c);
    RunSnoc(EMPTY, [] + [c], v);
    RunSnoc(EMPTY, [] + [c] + [v], v);
    assert Run(EMPTY, low).scores[p].score == 1 && Run(EMPTY, low).scores[p].failedHandshakes == 0;
    FourFailures(EMPTY, low, f);
    assert Run(EMPTY, low + [f] + [f] + [f] + [f]).scores[p].score == -39;
  }

  lemma FourFailures(s: Guard, trace: seq<Timed>, f: Timed)
    requires f.cmd.OnFailedHandshake? && f.cmd.peer in Run(s, trace).scores
    requires Run(s, trace).scores[f.cmd.peer].failedHandshakes == 0
    ensures var scores := Run(s, trace + [f] + [f] + [f] + [f]).scores;
            f.cmd.peer in scores && scores[f.cmd.peer].score == Run(s, trace).scores[f.cmd.peer].score - 40
  {
    hide Run;
    RunSnoc(s, trace, f);
    RunSnoc(s, trace + [f], f);
    RunSnoc(s, trace + [f] + [f], f);
    RunSnoc(s, trace + [f] + [f] + [f], f);
  }

  ghost predicate InRange(s: Guard, p: PeerId) {
    p in s.scores ==> 0 <= s.scores[p].score <= 100
  }

  /** A failed handshake that takes more than the score holds and is not yet the fifth. */
  ghost predicate Overdraws(s: Guard, c: Command, now: nat, p: PeerId) {
    && c == OnFailedHandshake(p)
    && Tracked(s, p, now).score < 10 && Tracked(s, p, now).failedHandshakes < 4
  }

  lemma LeavesRangeExactlyWhen(s: Guard, c: Command, now: nat, p: PeerId)
    requires InRange(s, p)
    ensures !InRange(After(s, c, now), p) <==> Overdraws(s, c, now, p)
  {
  }

  /** The documented range of 0 to 100 holds all along a run exactly when no failed
      handshake of the run overdraws the score. */
  lemma {:induction false} RangeHoldsExactlyWhen(trace: seq<Timed>, p: PeerId)
    ensures (forall n :: 0 <= n <= |trace| ==> InRange(Run(EMPTY, trace[..n]), p)) <==>
            (forall n :: 0 <= n < |trace| ==> !Overdraws(Run(EMPTY, trace[..n]), trace[n].cmd, trace[n].now, p))
    decreases |trace|
  {
    hide After, InRange, Overdraws, Run;
    if trace == [] {
      RangeAtStart(p);
    } else {
      var last := |trace| - 1;
      var shorter := trace[..last];
      RangeHoldsExactlyWhen(shorter, p);
      assert trace[..|trace|] == trace && shorter[..last] == shorter;
      forall n | 0 <= n <= last ensures trace[..n] == shorter[..n] {
      }
      forall n | 0 <= n < last ensures trace[n] == shorter[n] {
      }
      RangeStep(trace, p);
    }
  }

  lemma RangeAtStart(p: PeerId)
    ensures InRange(Run(EMPTY, [][..0]), p)
  {
  }

  lemma RangeStep(trace: seq<Timed>, p: PeerId)
    requires trace != []
    ensures var last := |trace| - 1;
            InRange(Run(EMPTY, trace[..last]), p) ==>
              (InRange(Run(EMPTY, trace), p) <==>
               !Overdraws(Run(EMPTY, trace[..last]), trace[last].cmd, trace[last].now, p))
  {
    var last := |trace| - 1;
    if InRange(Run(EMPTY, trace[..last]), p) {
      LeavesRangeExactlyWhen(Run(EMPTY, trace[..last]), trace[last].cmd, trace[last].now, p);
    }
  }

  /** Events that touch the standing of `p`; asking about it does not. */
  ghost predicate Concerns(c: Command, p: PeerId) {
    !c.Cleanup? && !c.IsAllowed? && c.peer == p
  }

  ghost predicate StillBanned(s: Guard, p: PeerId, b: BanRecord, now: nat) {
    && p !in s.scores
    && if p in s.banned then s.banned[p] == b else !InForce(b, now)
  }

  lemma BanStep(s: Guard, p: PeerId, b: BanRecord, t: Timed, before: nat)
    requires StillBanned(s, p, b, before) && before <= t.now && !Concerns(t.cmd, p)
    ensures StillBanned(After(s, t.cmd, t.now), p, b, t.now)
  {
  }

  lemma {:induction false} BanRun(s: Guard, p: PeerId, b: BanRecord, trace: seq<Timed>, start: nat)
    requires StillBanned(s, p, b, start) && Monotone(trace) && (trace != [] ==> start <= trace[0].now)
    requires forall i :: 0 <= i < |trace| ==> !Concerns(trace[i].cmd, p)
    ensures StillBanned(Run(s, trace), p, b, if trace == [] then start else trace[|trace| - 1].now)
    decreases |trace|
  {
    hide After, StillBanned;
    if trace != [] {
      var last := |trace| - 1;
      BanRun(s, p, b, trace[..last], start);
      BanStep(Run(s, trace[..last]), p, b, trace[last], if last == 0 then start else trace[last - 1].now);
    }
  }

  /** With no further event for it, a banned peer is denied exactly until the ban
      expires, or for ever, whatever clean-ups, queries and other peers' events
      come in between. */
  lemma DeniedExactlyUntilExpiry(s: Guard, p: PeerId, reason: string, expiresAt: Option<nat>, start: nat,
                                 trace: seq<Timed>, now: nat)
    requires Monotone(trace) && start <= now
    requires trace != [] ==> start <= trace[0].now && trace[|trace| - 1].now <= now
    requires forall i :: 0 <= i < |trace| ==> !Concerns(trace[i].cmd, p)
    ensures Allowed(Run(After(s, Ban(p, reason, expiresAt), start), trace), p, now)
            <==> expiresAt.Some? && expiresAt.value <= now
  {
    hide Run;
    BanRun(After(s, Ban(p, reason, expiresAt), start), p, BanRecord(reason, start, expiresAt), trace, start);
  }

  /** The ban command that an event amounts to, when it bans. */
  function AsBan(s: Guard, c: Command, now: nat): Command {
    match c
    case OnFailedHandshake(p) =>
      if Tracked(s, p, now).failedHandshakes >= 4 then Ban(p, "5 failed handshakes", Some(now + HANDSHAKE_BAN_SECS)) else c
    case OnProtocolViolation(p) =>
      if Tracked(s, p, now).score <= 25 then Ban(p, "protocol violation", None) else c
    case _ => c
  }

  lemma AutomaticBans(s: Guard, c: Command, now: nat)
    ensures After(s, AsBan(s, c, now), now) == After(s, c, now)
  {
  }

  /** The same for every event that bans: the fifth failed handshake for an hour, the
      violation to zero or less for ever, the explicit ban as it says. */
  lemma DeniedAfterAnyBan(s: Guard, c: Command, start: nat, trace: seq<Timed>, now: nat)
    requires AsBan(s, c, start).Ban?
    requires Monotone(trace) && start <= now
    requires trace != [] ==> start <= trace[0].now && trace[|trace| - 1].now <= now
    requires forall i :: 0 <= i < |trace| ==> !Concerns(trace[i].cmd, AsBan(s, c, start).peer)
    ensures var ban := AsBan(s, c, start);
            Allowed(Run(After(s, c, start), trace), ban.peer, now)
            <==> ban.expiresAt.Some? && ban.expiresAt.value <= now
  {
    hide Run, AsBan;
    AutomaticBans(s, c, start);
    var ban := AsBan(s, c, start);
    DeniedExactlyUntilExpiry(s, ban.peer, ban.reason, ban.expiresAt, start, trace, now);
  }

  /** Clean-up never subtracts a later time from an earlier one. */
  lemma {:induction false} ClockNeverUnderflows(trace: seq<Timed>, now: nat)
    requires Monotone(trace) && (trace != [] ==> trace[|trace| - 1].now <= now)
    ensures forall p :: p in Run(EMPTY, trace).scores ==> Run(EMPTY, trace).scores[p].lastSeen <= now
    decreases |trace|
  {
    if trace != [] {
      var last := |trace| - 1;
      ClockNeverUnderflows(trace[..last], trace[last].now);
    }
  }
}
