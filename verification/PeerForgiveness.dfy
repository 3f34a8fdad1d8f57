/**
 What clean-up of the peer guard forgets. A clean-up can be told from none exactly
 when it drops a record at all, and without the help of a further clean-up exactly
 when it drops one that decisions would have read.
 */
module PeerForgiveness {
  import opened Common
  import opened PeerGuard
  import opened PeerGuardRuns

  /** The continuation begins no earlier than `from` and ends by `now`; with `cleaning`
      off it has no clean-up. */
  ghost predicate Continues(from: nat, trace: seq<Timed>, now: nat, cleaning: bool) {
    && Monotone(trace) && from <= now
    && forall i :: 0 <= i < |trace| ==> from <= trace[i].now <= now && (cleaning || !trace[i].cmd.Cleanup?)
  }

  ghost predicate AnswersDiffer(s: Guard, u: Guard, from: nat, cleaning: bool, trace: seq<Timed>, p: PeerId, now: nat) {
    Continues(from, trace, now, cleaning) && Allowed(Run(s, trace), p, now) != Allowed(Run(u, trace), p, now)
  }

  /** Some later events and a query about some peer tell the two states apart. */
  ghost predicate Distinguishable(s: Guard, u: Guard, from: nat, cleaning: bool) {
    exists trace, p, now :: AnswersDiffer(s, u, from, cleaning, trace, p, now)
  }

  // ----- Without clean-up, records that read alike are never told apart ---------

  /** What decisions read of a peer's record: an untracked peer reads as a fresh one. */
  function Reads(s: Guard, p: PeerId): (int, nat) {
    if p in s.scores then (s.scores[p].score, s.scores[p].failedHandshakes) else (INITIAL_SCORE, 0)
  }

  /** The expiry of the ban in force, if there is one. */
  function BanReads(s: Guard, p: PeerId, now: nat): Option<Option<nat>> {
    if p in s.banned && InForce(s.banned[p], now) then Some(s.banned[p].expiresAt) else None
  }

  ghost predicate ReadAlike(s: Guard, u: Guard, now: nat) {
    forall p :: Reads(s, p) == Reads(u, p) && BanReads(s, p, now) == BanReads(u, p, now)
  }

  lemma AlikeLater(s: Guard, u: Guard, now: nat, later: nat)
    requires ReadAlike(s, u, now) && now <= later
    ensures ReadAlike(s, u, later)
  {
    forall p ensures Reads(s, p) == Reads(u, p) && BanReads(s, p, later) == BanReads(u, p, later) {
      assert BanReads(s, p, now) == BanReads(u, p, now);
    }
  }

  ghost predicate PeerReadsAlike(s: Guard, u: Guard, p: PeerId, now: nat) {
    Reads(s, p) == Reads(u, p) && BanReads(s, p, now) == BanReads(u, p, now)
  }

  lemma PeerAlikeStep(s: Guard, u: Guard, c: Command, now: nat, p: PeerId)
    requires PeerReadsAlike(s, u, p, now) && !c.Cleanup?
    ensures PeerReadsAlike(After(s, c, now), After(u, c, now), p, now)
  {
    if c.peer != p || c.IsAllowed? {
      OthersUntouched(s, c, now, p);
      OthersUntouched(u, c, now, p);
    }
  }

  lemma OthersUntouched(s: Guard, c: Command, now: nat, p: PeerId)
    requires !c.Cleanup? && (c.peer != p || c.IsAllowed?)
    ensures Reads(After(s, c, now), p) == Reads(s, p) && BanReads(After(s, c, now), p, now) == BanReads(s, p, now)
  {
  }

  lemma AlikeStep(s: Guard, u: Guard, c: Command, now: nat)
    requires ReadAlike(s, u, now) && !c.Cleanup?
    ensures ReadAlike(After(s, c, now), After(u, c, now), now)
  {
    hide After, Reads, BanReads;
    forall p
      ensures Reads(After(s, c, now), p) == Reads(After(u, c, now), p)
      ensures BanReads(After(s, c, now), p, now) == BanReads(After(u, c, now), p, now)
    {
      PeerAlikeStep(s, u, c, now, p);
    }
  }

  lemma {:induction false} AlikeRun(s: Guard, u: Guard, from: nat, trace: seq<Timed>, now: nat)
    requires ReadAlike(s, u, from) && Continues(from, trace, now, false)
    ensures ReadAlike(Run(s, trace), Run(u, trace), now)
    decreases |trace|
  {
    hide After, ReadAlike;
    if trace == [] {
      AlikeLater(s, u, from, now);
    } else {
      var last := |trace| - 1;
      var t := trace[last];
      AlikeRun(s, u, from, trace[..last], t.now);
      AlikeStep(Run(s, trace[..last]), Run(u, trace[..last]), t.cmd, t.now);
      AlikeLater(Run(s, trace), Run(u, trace), t.now, now);
    }
  }

  lemma AlikeIsIndistinguishable(s: Guard, u: Guard, from: nat)
    requires ReadAlike(s, u, from)
    ensures !Distinguishable(s, u, from, false)
  {
    if Distinguishable(s, u, from, false) {
      var trace, p, now :| AnswersDiffer(s, u, from, false, trace, p, now);
      AlikeRun(s, u, from, trace, now);
      assert Reads(Run(s, trace), p) == Reads(Run(u, trace), p);
      assert BanReads(Run(s, trace), p, now) == BanReads(Run(u, trace), p, now);
      assert false;
    }
  }

  // ----- Equal records are never told apart -------------------------------------

  ghost predicate SameRecords(s: Guard, u: Guard, now: nat) {
    s.scores == u.scores && forall p :: BanReads(s, p, now) == BanReads(u, p, now)
  }

  lemma SameLater(s: Guard, u: Guard, now: nat, later: nat)
    requires SameRecords(s, u, now) && now <= later
    ensures SameRecords(s, u, later)
  {
    forall p ensures BanReads(s, p, later) == BanReads(u, p, later) {
      assert BanReads(s, p, now) == BanReads(u, p, now);
    }
  }

  lemma CleanupKeepsBans(s: Guard, now: nat, p: PeerId)
    ensures BanReads(After(s, Cleanup, now), p, now) == BanReads(s, p, now)
  {
  }

  lemma SameStep(s: Guard, u: Guard, c: Command, now: nat)
    requires SameRecords(s, u, now)
    ensures SameRecords(After(s, c, now), After(u, c, now), now)
  {
    assert After(s, c, now).scores == After(u, c, now).scores;
    hide After;
    forall p ensures BanReads(After(s, c, now), p, now) == BanReads(After(u, c, now), p, now) {
      assert BanReads(s, p, now) == BanReads(u, p, now);
      if c.Cleanup? {
        CleanupKeepsBans(s, now, p);
        CleanupKeepsBans(u, now, p);
      } else {
        PeerAlikeStep(s, u, c, now, p);
      }
    }
  }

  lemma {:induction false} SameRun(s: Guard, u: Guard, from: nat, trace: seq<Timed>, now: nat)
    requires SameRecords(s, u, from) && Continues(from, trace, now, true)
    ensures SameRecords(Run(s, trace), Run(u, trace), now)
    decreases |trace|
  {
    hide After, SameRecords;
    if trace == [] {
      SameLater(s, u, from, now);
    } else {
      var last := |trace| - 1;
      var t := trace[last];
      SameRun(s, u, from, trace[..last], t.now);
      SameStep(Run(s, trace[..last]), Run(u, trace[..last]), t.cmd, t.now);
      SameLater(Run(s, trace), Run(u, trace), t.now, now);
    }
  }

  lemma SameIsIndistinguishable(s: Guard, u: Guard, from: nat)
    requires SameRecords(s, u, from)
    ensures !Distinguishable(s, u, from, true)
  {
    if Distinguishable(s, u, from, true) {
      var trace, p, now :| AnswersDiffer(s, u, from, true, trace, p, now);
      SameRun(s, u, from, trace, now);
      assert BanReads(Run(s, trace), p, now) == BanReads(Run(u, trace), p, now);
      assert false;
    }
  }

  // ----- Records that read differently can be told apart -----------------------

  lemma {:induction false} RunCons(s: Guard, t: Timed, trace: seq<Timed>)
    ensures Run(s, [t] + trace) == Run(After(s, t.cmd, t.now), trace)
    decreases |trace|
  {
    if trace == [] {
      assert [t] + trace == [] + [t];
      RunSnoc(s, [], t);
    } else {
      var last := |trace| - 1;
      RunCons(s, t, trace[..last]);
      RunSnoc(s, [t] + trace[..last], trace[last]);
      assert [t] + trace == ([t] + trace[..last]) + [trace[last]];
    }
  }

  lemma Prepend(s: Guard, u: Guard, c: Command, now: nat, cleaning: bool)
    requires cleaning || !c.Cleanup?
    requires Distinguishable(After(s, c, now), After(u, c, now), now, cleaning)
    ensures Distinguishable(s, u, now, cleaning)
  {
    hide After, Allowed;
    var trace, p, end :| AnswersDiffer(After(s, c, now), After(u, c, now), now, cleaning, trace, p, end);
    RunCons(s, Timed(now, c), trace);
    RunCons(u, Timed(now, c), trace);
    assert AnswersDiffer(s, u, now, cleaning, [Timed(now, c)] + trace, p, end);
  }

  lemma Symmetric(s: Guard, u: Guard, from: nat, cleaning: bool)
    requires Distinguishable(s, u, from, cleaning)
    ensures Distinguishable(u, s, from, cleaning)
  {
    var trace, p, now :| AnswersDiffer(s, u, from, cleaning, trace, p, now);
    assert AnswersDiffer(u, s, from, cleaning, trace, p, now);
  }

  /** What tells two states apart later tells them apart now, clean-ups allowed or not. */
  lemma Later(s: Guard, u: Guard, from: nat, later: nat, cleaning: bool)
    requires from <= later && Distinguishable(s, u, later, false)
    ensures Distinguishable(s, u, from, cleaning)
  {
    var trace, p, now :| AnswersDiffer(s, u, later, false, trace, p, now);
    assert AnswersDiffer(s, u, from, cleaning, trace, p, now);
  }

  lemma Query(s: Guard, u: Guard, p: PeerId, from: nat, now: nat)
    requires from <= now && Allowed(s, p, now) != Allowed(u, p, now)
    ensures Distinguishable(s, u, from, false)
  {
    assert AnswersDiffer(s, u, from, false, [], p, now);
  }

  /** Failing handshakes until one side has five: it ends under a ban of an hour
      while the other keeps what it had, a permanent ban or none in force. */
  lemma {:induction false} FailUntilBan(s: Guard, u: Guard, p: PeerId, now: nat)
    requires var (_, f), (score, j) := Reads(s, p), Reads(u, p);
             1 <= f <= 4 && j < f && score == INITIAL_SCORE - 10 * j
    requires p in u.banned && InForce(u.banned[p], now) ==> u.banned[p].expiresAt.None?
    ensures Distinguishable(s, u, now, false)
    decreases 4 - Reads(s, p).1
  {
    var c := OnFailedHandshake(p);
    var s', u' := After(s, c, now), After(u, c, now);
    if Reads(s, p).1 == 4 {
      var hour := now + HANDSHAKE_BAN_SECS;
      assert s'.banned[p].expiresAt == Some(hour) && p !in s'.scores && u'.banned == u.banned;
      if p in u.banned && InForce(u.banned[p], now) {
        assert Allowed(s', p, hour) && !Allowed(u', p, hour);
        Query(s', u', p, now, hour);
      } else {
        assert !Allowed(s', p, now) && Allowed(u', p, now);
        Query(s', u', p, now, now);
      }
    } else {
      FailUntilBan(s', u', p, now);
    }
    Prepend(s, u, c, now, false);
  }

  /** Equal failures but different scores: violations take one side's record first. */
  lemma SplitByViolations(s: Guard, u: Guard, p: PeerId, now: nat)
    requires 1 <= Reads(s, p).0 <= 100 && Reads(s, p).0 != INITIAL_SCORE && Reads(s, p).1 == 1
    requires Reads(u, p) == (INITIAL_SCORE, 1)
    ensures Distinguishable(s, u, now, false)
  {
    var v, up := OnProtocolViolation(p), OnConnected(p);
    var a := Reads(s, p).0;
    var s1, u1 := After(s, v, now), After(u, v, now);
    if a <= 25 {
      FailUntilBan(u1, s1, p, now);
      Symmetric(u1, s1, now, false);
    } else if a < INITIAL_SCORE {
      var s2, u2 := After(s1, up, now), After(u1, up, now);
      var s3, u3 := After(s2, v, now), After(u2, v, now);
      FailUntilBan(u3, s3, p, now);
      Symmetric(u3, s3, now, false);
      Prepend(s2, u2, v, now, false);
      Prepend(s1, u1, up, now, false);
    } else {
      var s2, u2 := After(s1, v, now), After(u1, v, now);
      FailUntilBan(s2, u2, p, now);
      Prepend(s1, u1, v, now, false);
    }
    Prepend(s, u, v, now, false);
  }

  /** Relays win back what a failed handshake took. */
  lemma {:induction false} RelayBack(s: Guard, u: Guard, p: PeerId, now: nat, a: int, k: nat)
    requires 1 <= a <= 100 && a != INITIAL_SCORE
    requires Reads(s, p) == (a - 2 * k, 1) && Reads(u, p) == (INITIAL_SCORE - 2 * k, 1)
    ensures Distinguishable(s, u, now, false)
    decreases k
  {
    if k == 0 {
      SplitByViolations(s, u, p, now);
    } else {
      var c := OnSuccessfulRelay(p, 0);
      RelayBack(After(s, c, now), After(u, c, now), p, now, a, k - 1);
      Prepend(s, u, c, now, false);
    }
  }

  // ----- When clean-up shows ---------------------------------------------------

  ghost predicate Stale(s: Guard, p: PeerId, now: nat) {
    p in s.scores && now - s.scores[p].lastSeen >= STALE_SECS
  }

  ghost predicate Forgettable(s: Guard, p: PeerId, now: nat) {
    Stale(s, p, now) && (s.scores[p].score != INITIAL_SCORE || s.scores[p].failedHandshakes != 0)
  }

  lemma ForgettingShows(s: Guard, p: PeerId, now: nat)
    requires RecordsOk(s) && Forgettable(s, p, now)
    ensures Distinguishable(s, After(s, Cleanup, now), now, false)
  {
    hide Distinguishable;
    var u := After(s, Cleanup, now);
    var (a, f) := Reads(s, p);
    if f == 0 {
      var c := OnFailedHandshake(p);
      RelayBack(After(s, c, now), After(u, c, now), p, now, a, 5);
      Prepend(s, u, c, now, false);
    } else {
      var late := Late(s, p, now);
      FailUntilBan(s, u, p, late);
      Later(s, u, now, late, false);
    }
  }

  /** A time at which a ban in force now is permanent or over. */
  function Late(s: Guard, p: PeerId, now: nat): (late: nat)
    ensures now <= late
    ensures p in s.banned && InForce(s.banned[p], late) ==> s.banned[p].expiresAt.None?
  {
    match BanReads(s, p, now)
    case Some(Some(expiry)) => expiry
    case _ => now
  }

  /** A record that reads as fresh shows through its age: a failed handshake does not
      renew it, so the next clean-up drops it, while the record created in its place stays. */
  lemma AgeShows(s: Guard, p: PeerId, now: nat)
    requires Stale(s, p, now) && Reads(s, p) == (INITIAL_SCORE, 0)
    ensures Distinguishable(s, After(s, Cleanup, now), now, true)
  {
    hide Distinguishable;
    var u, c := After(s, Cleanup, now), OnFailedHandshake(p);
    var s1, u1 := After(s, c, now), After(u, c, now);
    var s2, u2 := After(s1, Cleanup, now), After(u1, Cleanup, now);
    assert Reads(s2, p) == (INITIAL_SCORE, 0) && Reads(u2, p) == (INITIAL_SCORE - 10, 1);
    var late := Late(s2, p, now);
    FailUntilBan(u2, s2, p, late);
    Symmetric(u2, s2, late, false);
    Later(s2, u2, now, late, true);
    Prepend(s1, u1, Cleanup, now, true);
    Prepend(s, u, c, now, true);
  }

  /** A clean-up can be told from none, by some later events, clean-ups included, and
      a query, exactly when it drops a record. This holds under bans too, permanent
      ones included: the fifth failed handshake puts a ban of an hour in their place,
      and the dropped record decides when that is. */
  lemma CleanupShowsExactlyWhen(s: Guard, now: nat)
    requires RecordsOk(s)
    ensures Distinguishable(s, After(s, Cleanup, now), now, true) <==> exists p :: Stale(s, p, now)
  {
    var u := After(s, Cleanup, now);
    if p :| Stale(s, p, now) {
      if Forgettable(s, p, now) {
        ForgettingShows(s, p, now);
        Later(s, u, now, now, true);
      } else {
        AgeShows(s, p, now);
      }
    } else {
      forall p ensures BanReads(s, p, now) == BanReads(u, p, now) && (p in s.scores <==> p in u.scores) {
        CleanupKeepsBans(s, now, p);
        assert !Stale(s, p, now);
      }
      SameIsIndistinguishable(s, u, now);
    }
  }

  /** As long as no further clean-up follows it takes more: a dropped record whose
      score or failure count is not a fresh record's. */
  lemma CleanupAloneShowsExactlyWhen(s: Guard, now: nat)
    requires RecordsOk(s)
    ensures Distinguishable(s, After(s, Cleanup, now), now, false) <==> exists p :: Forgettable(s, p, now)
  {
    if p :| Forgettable(s, p, now) {
      ForgettingShows(s, p, now);
    } else {
      var u := After(s, Cleanup, now);
      forall p ensures Reads(s, p) == Reads(u, p) && BanReads(s, p, now) == BanReads(u, p, now) {
        assert !Forgettable(s, p, now);
      }
      AlikeIsIndistinguishable(s, u, now);
    }
  }

  /** The answer to a query at the very moment of clean-up changes in fewer cases. */
  lemma CleanupForgivesExactlyWhen(s: Guard, p: PeerId, now: nat)
    ensures Allowed(After(s, Cleanup, now), p, now) != Allowed(s, p, now) <==>
            && !(p in s.banned && InForce(s.banned[p], now))
            && p in s.scores && s.scores[p].score <= 0 && now - s.scores[p].lastSeen >= STALE_SECS
  {
  }

  /** Such a peer exists: one violation and three failed handshakes leave it denied
      without a ban, and a day later clean-up lets it back in. */
  lemma ForgivenessHappens(p: PeerId)
    ensures exists trace: seq<Timed> ::
              && Monotone(trace) && (forall i :: 0 <= i < |trace| ==> trace[i].now == 0)
              && !Allowed(Run(EMPTY, trace), p, 86400)
              && Allowed(After(Run(EMPTY, trace), Cleanup, 86400), p, 86400)
  {
    var v, f := Timed(0, OnProtocolViolation(p)), Timed(0, OnFailedHandshake(p));
    RunSnoc(EMPTY, [], v);
    RunSnoc(EMPTY, [] + [v], f);
    RunSnoc(EMPTY, [] + [v] + [f], f);
    RunSnoc(EMPTY, [] + [v] + [f] + [f], f);
    var trace := [] + [v] + [f] + [f] + [f];
    var s1 := Run(EMPTY, [] + [v]);
    assert s1.scores[p].score == 25;
    assert Run(EMPTY, trace).scores[p].score == -5 && p !in Run(EMPTY, trace).banned;
    CleanupForgivesExactlyWhen(Run(EMPTY, trace), p, 86400);
  }

  ghost predicate ShowsAfterFailure(s: Guard, p: PeerId, now: nat) {
    var cleaned, fail := After(s, Cleanup, now), OnFailedHandshake(p);
    && Allowed(s, p, now) && Allowed(cleaned, p, now)
    && !Allowed(After(s, fail, now), p, now) && Allowed(After(cleaned, fail, now), p, now)
  }

  /** A peer with points left whose query is answered alike with and without
      clean-up, and which one more failed handshake tells apart. */
  lemma ForgivenessShowsLater(p: PeerId)
    ensures exists trace: seq<Timed> ::
              && Monotone(trace) && (forall i :: 0 <= i < |trace| ==> trace[i].now == 0)
              && ShowsAfterFailure(Run(EMPTY, trace), p, 86400)
  {
    var v, f := Timed(0, OnProtocolViolation(p)), Timed(0, OnFailedHandshake(p));
    RunSnoc(EMPTY, [], v);
    RunSnoc(EMPTY, [] + [v], f);
    RunSnoc(EMPTY, [] + [v] + [f], f);
    var trace := [] + [v] + [f] + [f];
    assert Run(EMPTY, [] + [v]).scores[p].score == 25;
    assert Run(EMPTY, trace).scores[p].score == 5 && p !in Run(EMPTY, trace).banned;
    assert Monotone(trace) && ShowsAfterFailure(Run(EMPTY, trace), p, 86400);
  }

  ghost function Repeat(t: Timed, n: nat): (ts: seq<Timed>)
    ensures |ts| == n && forall i :: 0 <= i < n ==> ts[i] == t
  {
    if n == 0 then [] else Repeat(t, n - 1) + [t]
  }

  lemma {:induction false} ConnectionsRaise(trace: seq<Timed>, p: PeerId, a: int, n: nat)
    requires p in Run(EMPTY, trace).scores && a + n <= 100
    requires Run(EMPTY, trace).scores[p].score == a && Run(EMPTY, trace).scores[p].failedHandshakes == 0
    requires Run(EMPTY, trace).scores[p].lastSeen == 0
    ensures var s := Run(EMPTY, trace + Repeat(Timed(0, OnConnected(p)), n));
            && p in s.scores && s.scores[p].score == a + n && s.scores[p].failedHandshakes == 0
            && s.scores[p].lastSeen == 0
  {
    hide Run;
    var c := Timed(0, OnConnected(p));
    if n == 0 {
      assert trace + Repeat(c, 0) == trace;
    } else {
      ConnectionsRaise(trace, p, a, n - 1);
      RunSnoc(EMPTY, trace + Repeat(c, n - 1), c);
      assert trace + Repeat(c, n) == trace + Repeat(c, n - 1) + [c];
    }
  }

  /** After a failed handshake, a clean-up and four more failures at `now`. */
  ghost function AfterAges(s: Guard, p: PeerId, now: nat): Guard {
    var f, c := OnFailedHandshake(p), Cleanup;
    After(After(After(After(After(After(s, f, now), c, now), f, now), f, now), f, now), f, now)
  }

  lemma AgeDecides(s: Guard, p: PeerId, now: nat)
    requires Stale(s, p, now) && Reads(s, p) == (INITIAL_SCORE, 0) && p !in s.banned
    ensures Allowed(AfterAges(s, p, now), p, now)
    ensures !Allowed(AfterAges(After(s, Cleanup, now), p, now), p, now)
  {
    var u, f := After(s, Cleanup, now), OnFailedHandshake(p);
    var s2, u2 := After(After(s, f, now), Cleanup, now), After(After(u, f, now), Cleanup, now);
    assert Reads(s2, p) == (50, 0) && p !in s2.banned && Reads(u2, p) == (40, 1) && p !in u2.banned;
    Failures(s2, p, now);
    Failures(u2, p, now);
  }

  /** Four failed handshakes in a row. */
  lemma Failures(s: Guard, p: PeerId, now: nat)
    requires p !in s.banned && (Reads(s, p) == (50, 0) || Reads(s, p) == (40, 1))
    ensures var f := OnFailedHandshake(p);
            Allowed(After(After(After(After(s, f, now), f, now), f, now), f, now), p, now) <==> Reads(s, p).1 == 0
  {
    var f := OnFailedHandshake(p);
    var s1 := After(s, f, now);
    var s2 := After(s1, f, now);
    var s3 := After(s2, f, now);
    assert Reads(s3, p) == (Reads(s, p).0 - 30, Reads(s, p).1 + 3) && s3.banned == s.banned;
  }

  /** A violation made good by 25 connections leaves score 50 without failures. */
  lemma FreshLookingTrace(p: PeerId) returns (trace: seq<Timed>)
    ensures Monotone(trace) && forall i :: 0 <= i < |trace| ==> trace[i].now == 0
    ensures var s := Run(EMPTY, trace);
            && s.banned == map[] && s.scores.Keys == {p} && Reads(s, p) == (INITIAL_SCORE, 0)
            && s.scores[p].lastSeen == 0
  {
    var v := Timed(0, OnProtocolViolation(p));
    RunSnoc(EMPTY, [], v);
    ConnectionsRaise([] + [v], p, 25, 25);
    trace := [] + [v] + Repeat(Timed(0, OnConnected(p)), 25);
    OnlyOnePeer(trace, p);
  }

  ghost predicate ShowsOnlyWithCleanup(s: Guard, p: PeerId, now: nat) {
    var cleaned := After(s, Cleanup, now);
    && !Distinguishable(s, cleaned, now, false)
    && Allowed(AfterAges(s, p, now), p, now) && !Allowed(AfterAges(cleaned, p, now), p, now)
  }

  /** No events without clean-up tell the clean-up of that record from none; a failed
      handshake, one more clean-up and four failures do. */
  lemma FreshLookingRecordShows(p: PeerId)
    ensures exists trace: seq<Timed> ::
              && Monotone(trace) && (forall i :: 0 <= i < |trace| ==> trace[i].now == 0)
              && ShowsOnlyWithCleanup(Run(EMPTY, trace), p, 86400)
  {
    hide Run, Distinguishable, AfterAges, After, Allowed;
    var trace := FreshLookingTrace(p);
    var s := Run(EMPTY, trace);
    ScoresStayBounded(trace);
    AgeDecides(s, p, 86400);
    CleanupAloneShowsExactlyWhen(s, 86400);
    assert ShowsOnlyWithCleanup(s, p, 86400);
  }

  lemma {:induction false} OnlyOnePeer(trace: seq<Timed>, p: PeerId)
    requires trace != [] && trace[0].cmd == OnProtocolViolation(p)
    requires forall i :: 1 <= i < |trace| ==> trace[i].cmd == OnConnected(p)
    ensures var s := Run(EMPTY, trace); s.banned == map[] && forall q :: q in s.scores ==> q == p
    decreases |trace|
  {
    if |trace| > 1 {
      OnlyOnePeer(trace[..|trace| - 1], p);
    } else {
      assert Run(EMPTY, trace[..0]) == EMPTY;
    }
  }
}
