/** A tracked peer's record is the history of the events since it was created. */
module PeerRecords {
  import opened Common
  import opened PeerGuard
  import opened PeerGuardRuns

  /** Where the present record of `p` begins: the last moment at which it had none. */
  ghost function Start(trace: seq<Timed>, p: PeerId): (start: nat)
    ensures start <= |trace|
  {
    if trace == [] || p !in Run(EMPTY, trace).scores then |trace| else Start(trace[..|trace| - 1], p)
  }

  function Times(tail: seq<Timed>, c: Command): nat {
    if tail == [] then 0 else Times(tail[..|tail| - 1], c) + if tail[|tail| - 1].cmd == c then 1 else 0
  }

  function BytesFrom(tail: seq<Timed>, p: PeerId): nat {
    if tail == [] then 0 else
      var c := tail[|tail| - 1].cmd;
      BytesFrom(tail[..|tail| - 1], p) + if c.OnSuccessfulRelay? && c.peer == p then c.bytes else 0
  }

  /** When the peer last connected or relayed, and when it was first seen if it did not. */
  function LastContact(tail: seq<Timed>, p: PeerId): nat {
    if tail == [] then 0 else
      var t := tail[|tail| - 1];
      if |tail| == 1 || t.cmd == OnConnected(p) || (t.cmd.OnSuccessfulRelay? && t.cmd.peer == p) then t.now
      else LastContact(tail[..|tail| - 1], p)
  }

  /** 50 to begin with; 1 for a connection and 2 for a relay, up to 100; less 10 for a
      failed handshake and 25 for a violation. */
  function Score(tail: seq<Timed>, p: PeerId): int {
    if tail == [] then 50 else
      var before, c := Score(tail[..|tail| - 1], p), tail[|tail| - 1].cmd;
      if c == OnConnected(p) then (if before >= 99 then 100 else before + 1)
      else if c.OnSuccessfulRelay? && c.peer == p then (if before >= 98 then 100 else before + 2)
      else if c == OnFailedHandshake(p) then before - 10
      else if c == OnProtocolViolation(p) then before - 25
      else before
  }

  ghost predicate Tells(r: PeerRecord, tail: seq<Timed>, p: PeerId) {
    && tail != []
    && r.connections == Times(tail, OnConnected(p))
    && r.failedHandshakes == Times(tail, OnFailedHandshake(p))
    && r.spamAttempts == Times(tail, OnProtocolViolation(p))
    && r.bytesReceived == BytesFrom(tail, p) && r.bytesSent == 0
    && r.firstSeen == tail[0].now && r.lastSeen == LastContact(tail, p)
    && r.score == Score(tail, p) <= 100
  }

  lemma Begins(s: Guard, t: Timed, p: PeerId)
    requires p !in s.scores && p in After(s, t.cmd, t.now).scores
    ensures Tells(After(s, t.cmd, t.now).scores[p], [t], p)
  {
    assert [t][..0] == [];
  }

  lemma GoesOn(s: Guard, tail: seq<Timed>, t: Timed, p: PeerId)
    requires p in s.scores && Tells(s.scores[p], tail, p) && p in After(s, t.cmd, t.now).scores
    ensures Tells(After(s, t.cmd, t.now).scores[p], tail + [t], p)
  {
    var longer := tail + [t];
    assert longer[..|longer| - 1] == tail && longer[|longer| - 1] == t && longer[0] == tail[0];
  }

  /** In every run, for every peer: counters, times and score are those of the events
      since its record was created. */
  lemma {:induction false} RecordsTellTheirHistory(trace: seq<Timed>, p: PeerId)
    ensures p in Run(EMPTY, trace).scores ==> Tells(Run(EMPTY, trace).scores[p], trace[Start(trace, p)..], p)
    decreases |trace|
  {
    hide After, Tells;
    if trace != [] && p in Run(EMPTY, trace).scores {
      var last := |trace| - 1;
      var front, t := trace[..last], trace[last];
      RecordsTellTheirHistory(front, p);
      var start := Start(front, p);
      if p in Run(EMPTY, front).scores {
        assert trace[start..] == front[start..] + [t];
        GoesOn(Run(EMPTY, front), front[start..], t, p);
      } else {
        assert start == last && trace[start..] == [t];
        Begins(Run(EMPTY, front), t, p);
      }
    }
  }

  /** A record goes when its peer is banned or not seen for a day, and only then. */
  lemma GoneExactlyWhen(s: Guard, c: Command, now: nat, p: PeerId)
    requires p in s.scores
    ensures p !in After(s, c, now).scores <==>
            || (AsBan(s, c, now).Ban? && c.peer == p)
            || (c.Cleanup? && now - s.scores[p].lastSeen >= 86400)
  {
  }

  /** And comes with the first event of its peer that does not ban it. */
  lemma ComesExactlyWhen(s: Guard, c: Command, now: nat, p: PeerId)
    requires p !in s.scores
    ensures p in After(s, c, now).scores <==> Concerns(c, p) && !c.Ban?
  {
  }
}
