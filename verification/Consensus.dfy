/**
 2-of-3 consensus with strikes (sns-daemon/src/consensus.rs). A reply is the
 canonical text of the returned JSON value, or an error; which nodes are picked
 and what they answer is left open.
 */
module Consensus {
  type NodeId = string

  const MAX_STRIKES: nat := 3

  datatype Reply = Answer(canonical: string) | Failed

  datatype BlacklistEntry = BlacklistEntry(timestamp: nat, strikeCount: nat)

  /** The two shared maps: the blacklist, and `consensus_failures` of each node. */
  datatype Router = Router(blacklist: map<NodeId, BlacklistEntry>, failures: map<NodeId, nat>)

  datatype RoundResult = Agreed(value: string) | InsufficientNodes | NoConsensus | AllNodesFailed

  function Strikes(s: Router, n: NodeId): nat {
    if n in s.blacklist then s.blacklist[n].strikeCount else 0
  }

  function Failures(s: Router, n: NodeId): nat {
    if n in s.failures then s.failures[n] else 0
  }

  predicate IsBlacklisted(s: Router, n: NodeId) {
    Strikes(s, n) >= MAX_STRIKES
  }

  function Eligible(s: Router, available: seq<NodeId>): (e: seq<NodeId>)
    ensures forall n :: n in e <==> n in available && !IsBlacklisted(s, n)
  {
    if available == [] then [] else
      (if IsBlacklisted(s, available[0]) then [] else [available[0]]) + Eligible(s, available[1..])
  }

  ghost predicate Distinct(ns: seq<NodeId>) {
    forall i, j :: 0 <= i < j < |ns| ==> ns[i] != ns[j]
  }

  /** `choose_multiple`: three different positions of the eligible list, in any order. */
  ghost predicate Drawn(eligible: seq<NodeId>, selected: seq<NodeId>, i: nat, j: nat, k: nat) {
    && i < |eligible| && j < |eligible| && k < |eligible| && i != j && j != k && i != k
    && selected == [eligible[i], eligible[j], eligible[k]]
  }

  ghost predicate CanSelect(eligible: seq<NodeId>, selected: seq<NodeId>) {
    exists i, j, k :: Drawn(eligible, selected, i, j, k)
  }

  /** What each query returned, by its position in the selection. */
  function Replies(selected: seq<NodeId>, answer: (nat, NodeId) -> Reply): (rs: seq<Reply>)
    ensures |rs| == |selected|
    ensures forall i :: 0 <= i < |rs| ==> rs[i] == answer(i, selected[i])
  {
    seq(|selected|, i requires 0 <= i < |selected| => answer(i, selected[i]))
  }

  function Votes(rs: seq<Reply>, v: string): nat {
    if rs == [] then 0 else Votes(rs[..|rs| - 1], v) + if rs[|rs| - 1] == Answer(v) then 1 else 0
  }

  /** The nodes that gave value `v`, in order. */
  function Voters(selected: seq<NodeId>, rs: seq<Reply>, v: string): seq<NodeId>
    requires |rs| == |selected|
  {
    if selected == [] then [] else
      var last := |selected| - 1;
      Voters(selected[..last], rs[..last], v) + if rs[last] == Answer(v) then [selected[last]] else []
  }

  /** What a round of three replies amounts to. */
  ghost function Outcome(rs: seq<Reply>): RoundResult {
    if forall i :: 0 <= i < |rs| ==> rs[i].Failed? then AllNodesFailed
    else if exists v :: Votes(rs, v) >= 2 then
      var v :| Votes(rs, v) >= 2;
      Agreed(v)
    else NoConsensus
  }

  function Punish(s: Router, n: NodeId, now: nat): Router {
    var since := if n in s.blacklist then s.blacklist[n].timestamp else now;
    Router(s.blacklist[n := BlacklistEntry(since, Strikes(s, n) + 1)], s.failures[n := Failures(s, n) + 1])
  }

  /** One strike for each selected node that is not among the agreeing ones. */
  function PunishAll(s: Router, selected: seq<NodeId>, agreeing: seq<NodeId>, now: nat): Router {
    if selected == [] then s else
      var last := |selected| - 1;
      var t := PunishAll(s, selected[..last], agreeing, now);
      if selected[last] in agreeing then t else Punish(t, selected[last], now)
  }

  ghost function After(s: Router, selected: seq<NodeId>, rs: seq<Reply>, now: nat): Router
    requires |rs| == |selected|
  {
    match Outcome(rs)
    case Agreed(v) => PunishAll(s, selected, Voters(selected, rs, v), now)
    case _ => s
  }

  // ----- One round ------------------------------------------------------------

  lemma VotesOfThree(rs: seq<Reply>, v: string)
    requires |rs| == 3
    ensures Votes(rs, v) == (if rs[0] == Answer(v) then 1 else 0)
                          + (if rs[1] == Answer(v) then 1 else 0)
                          + (if rs[2] == Answer(v) then 1 else 0)
  {
    assert rs[..2][..1] == [rs[0]];
    assert Votes([rs[0]], v) == if rs[0] == Answer(v) then 1 else 0;
  }

  lemma VotersOfThree(selected: seq<NodeId>, rs: seq<Reply>, v: string)
    requires |selected| == |rs| == 3
    ensures Voters(selected, rs, v) == (if rs[0] == Answer(v) then [selected[0]] else [])
                                     + (if rs[1] == Answer(v) then [selected[1]] else [])
                                     + (if rs[2] == Answer(v) then [selected[2]] else [])
  {
    assert selected[..2][..1] == [selected[0]] && rs[..2][..1] == [rs[0]];
    assert Voters([selected[0]], [rs[0]], v) == if rs[0] == Answer(v) then [selected[0]] else [];
  }

  lemma {:induction false} VotersCounted(selected: seq<NodeId>, rs: seq<Reply>, v: string)
    requires |selected| == |rs|
    ensures |Voters(selected, rs, v)| == Votes(rs, v)
    decreases |rs|
  {
    if rs != [] {
      VotersCounted(selected[..|rs| - 1], rs[..|rs| - 1], v);
    }
  }

  /** At most one value can have two votes, and it is agreed exactly when it has them. */
  lemma AgreedExactlyOnTwoVotes(rs: seq<Reply>, v: string)
    requires |rs| == 3
    ensures Outcome(rs) == Agreed(v) <==> Votes(rs, v) >= 2
    ensures Outcome(rs) == AllNodesFailed <==> forall i :: 0 <= i < 3 ==> rs[i].Failed?
  {
    VotesOfThree(rs, v);
    if exists w :: Votes(rs, w) >= 2 {
      forall w | Votes(rs, w) >= 2 ensures Votes(rs, v) >= 2 ==> v == w {
        VotesOfThree(rs, w);
      }
    }
  }

  lemma NoTwoVotes(rs: seq<Reply>)
    requires |rs| == 3 && forall v :: Votes(rs, v) < 2
    ensures Outcome(rs) == if forall i :: 0 <= i < 3 ==> rs[i].Failed? then AllNodesFailed else NoConsensus
  {
  }

  /** The node was queried and gave the value in none of its replies. */
  ghost predicate Dissents(selected: seq<NodeId>, rs: seq<Reply>, v: string, n: NodeId)
    requires |rs| == |selected|
  {
    n in selected && forall i :: 0 <= i < |selected| && selected[i] == n ==> rs[i] != Answer(v)
  }

  /** The round's effect, node by node: on agreement every selected node that did
      not give the agreed value, errors included, gets exactly one strike, and there
      is at most one; nobody else's record changes, and nobody's does without agreement. */
  lemma StrikesAfterRound(s: Router, selected: seq<NodeId>, rs: seq<Reply>, now: nat, n: NodeId)
    requires |selected| == |rs| == 3
    ensures var t := After(s, selected, rs, now);
            var struck := Outcome(rs).Agreed? && Dissents(selected, rs, Outcome(rs).value, n);
            && Strikes(t, n) == Strikes(s, n) + (if struck then 1 else 0)
            && Failures(t, n) == Failures(s, n) + (if struck then 1 else 0)
    ensures Outcome(rs).Agreed? ==>
              forall i, j :: 0 <= i < j < 3 && Dissents(selected, rs, Outcome(rs).value, selected[i]) ==>
                !Dissents(selected, rs, Outcome(rs).value, selected[j])
  {
    if Outcome(rs).Agreed? {
      var v := Outcome(rs).value;
      AgreedExactlyOnTwoVotes(rs, v);
      VotesOfThree(rs, v);
      VotersOfThree(selected, rs, v);
      PunishThree(s, selected, Voters(selected, rs, v), now);
    }
  }

  lemma PunishThree(s: Router, selected: seq<NodeId>, agreeing: seq<NodeId>, now: nat)
    requires |selected| == 3
    ensures var t0 := if selected[0] in agreeing then s else Punish(s, selected[0], now);
            var t1 := if selected[1] in agreeing then t0 else Punish(t0, selected[1], now);
            PunishAll(s, selected, agreeing, now) == if selected[2] in agreeing then t1 else Punish(t1, selected[2], now)
  {
    assert selected[..2][..1] == [selected[0]];
    assert PunishAll(s, [selected[0]], agreeing, now)
        == if selected[0] in agreeing then s else Punish(s, selected[0], now);
  }

  /** The order in which replies come back makes no difference to result or state. */
  lemma OrderIsIrrelevant(s: Router, selected: seq<NodeId>, rs: seq<Reply>, now: nat, i: nat, j: nat, k: nat)
    requires |selected| == |rs| == 3
    requires i < 3 && j < 3 && k < 3 && i != j && j != k && i != k
    ensures Outcome([rs[i], rs[j], rs[k]]) == Outcome(rs)
    ensures After(s, [selected[i], selected[j], selected[k]], [rs[i], rs[j], rs[k]], now) == After(s, selected, rs, now)
  {
    hide Votes, Voters, PunishAll, Punish;
    var rs', selected' := [rs[i], rs[j], rs[k]], [selected[i], selected[j], selected[k]];
    forall v ensures Votes(rs', v) == Votes(rs, v) {
      VotesOfThree(rs', v);
      VotesOfThree(rs, v);
    }
    AgreedExactlyOnTwoVotes(rs, "");
    AgreedExactlyOnTwoVotes(rs', "");
    if exists v :: Votes(rs, v) >= 2 {
      var v :| Votes(rs, v) >= 2;
      AgreedExactlyOnTwoVotes(rs, v);
      AgreedExactlyOnTwoVotes(rs', v);
      VotesOfThree(rs, v);
      VotersOfThree(selected, rs, v);
      VotersOfThree(selected', rs', v);
      PunishThree(s, selected, Voters(selected, rs, v), now);
      PunishThree(s, selected', Voters(selected', rs', v), now);
    } else {
      NoTwoVotes(rs);
      NoTwoVotes(rs');
    }
  }

  /** The vote map holds for value `v` exactly its voters among the first `i` replies. */
  ghost predicate Tallied(voteMap: map<string, seq<NodeId>>, selected: seq<NodeId>, rs: seq<Reply>, i: nat, v: string)
    requires |selected| == |rs| && i <= |rs|
  {
    && (v in voteMap <==> Voters(selected[..i], rs[..i], v) != [])
    && (v in voteMap ==> voteMap[v] == Voters(selected[..i], rs[..i], v))
  }

  function AddVote(voteMap: map<string, seq<NodeId>>, r: Reply, n: NodeId): map<string, seq<NodeId>> {
    match r
    case Answer(v) => voteMap[v := (if v in voteMap then voteMap[v] else []) + [n]]
    case Failed => voteMap
  }

  lemma TallyStep(voteMap: map<string, seq<NodeId>>, selected: seq<NodeId>, rs: seq<Reply>, i: nat, v: string)
    requires |selected| == |rs| && i < |rs| && Tallied(voteMap, selected, rs, i, v)
    ensures Tallied(AddVote(voteMap, rs[i], selected[i]), selected, rs, i + 1, v)
  {
    assert selected[..i + 1][..i] == selected[..i] && rs[..i + 1][..i] == rs[..i];
  }

  // ----- The round as the program runs it -------------------------------------

  class ConsensusRouter {
    var blacklist: map<NodeId, BlacklistEntry>
    var failures: map<NodeId, nat>

    ghost function State(): Router
      reads this
    {
      Router(blacklist, failures)
    }

    constructor ()
      ensures State() == Router(map[], map[])
    {
      blacklist, failures := map[], map[];
    }

    method PunishNode(n: NodeId, now: nat)
      modifies this
      ensures State() == Punish(old(State()), n, now)
    {
      var entry := if n in blacklist then blacklist[n] else BlacklistEntry(now, 0);
      blacklist := blacklist[n := entry.(strikeCount := entry.strikeCount + 1)];
      failures := failures[n := (if n in failures then failures[n] else 0) + 1];
    }

    method FilterEligible(available: seq<NodeId>) returns (eligible: seq<NodeId>)
      ensures eligible == Eligible(State(), available)
    {
      eligible := [];
      var i := |available|;
      while i > 0
        invariant 0 <= i <= |available|
        invariant eligible == Eligible(State(), available[i..])
      {
        i := i - 1;
        var n := available[i];
        if !(n in blacklist && blacklist[n].strikeCount >= MAX_STRIKES) {
          eligible := [n] + eligible;
        }
      }
    }

    /** Collects the voters of each value and counts the errors. */
    method Tally(selected: seq<NodeId>, rs: seq<Reply>)
      returns (voteMap: map<string, seq<NodeId>>, errorCount: nat)
      requires |rs| == |selected|
      ensures forall v :: v in voteMap <==> Voters(selected, rs, v) != []
      ensures forall v :: v in voteMap ==> voteMap[v] == Voters(selected, rs, v)
      ensures errorCount <= |rs| && (errorCount == |rs| <==> forall i :: 0 <= i < |rs| ==> rs[i].Failed?)
    {
      voteMap, errorCount := map[], 0;
      var i := 0;
      while i < |selected|
        invariant 0 <= i <= |selected|
        invariant forall v :: Tallied(voteMap, selected, rs, i, v)
        invariant errorCount <= i && (errorCount == i <==> forall k :: 0 <= k < i ==> rs[k].Failed?)
      {
        ghost var done, next := i + 1, AddVote(voteMap, rs[i], selected[i]);
        forall v ensures Tallied(next, selected, rs, done, v) {
          TallyStep(voteMap, selected, rs, i, v);
        }
        match rs[i] {
          case Answer(v) =>
            voteMap := voteMap[v := (if v in voteMap then voteMap[v] else []) + [selected[i]]];
          case Failed =>
            errorCount := errorCount + 1;
        }
        assert voteMap == next;
        i := i + 1;
      }
      assert selected[..|selected|] == selected && rs[..|rs|] == rs;
      forall v
        ensures v in voteMap <==> Voters(selected, rs, v) != []
        ensures v in voteMap ==> voteMap[v] == Voters(selected, rs, v)
      {
        assert Tallied(voteMap, selected, rs, i, v);
      }
    }

    /** A full round. The vote map is searched in any order and any three eligible
        positions are drawn, yet result and strikes are determined by the replies. */
    method QueryWithConsensus(available: seq<NodeId>, answer: (nat, NodeId) -> Reply, now: nat)
      returns (result: RoundResult, selected: seq<NodeId>)
      modifies this
      ensures |Eligible(old(State()), available)| < 3 ==>
                result == InsufficientNodes && selected == [] && State() == old(State())
      ensures |Eligible(old(State()), available)| >= 3 ==>
                && CanSelect(Eligible(old(State()), available), selected) && |selected| == 3
                && result == Outcome(Replies(selected, answer))
                && State() == After(old(State()), selected, Replies(selected, answer), now)
    {
      hide Votes, Outcome, PunishAll, Voters;
      var eligible := FilterEligible(available);
      if |eligible| < 3 {
        return InsufficientNodes, [];
      }
      selected := ChooseThree(eligible);
      var rs := Replies(selected, answer);
      var voteMap, errorCount := Tally(selected, rs);
      AgreedExactlyOnTwoVotes(rs, "");
      forall v ensures |Voters(selected, rs, v)| == Votes(rs, v) {
        VotersCounted(selected, rs, v);
      }
      if errorCount == 3 {
        return AllNodesFailed, selected;
      }
      var rest := voteMap.Keys;
      while rest != {}
        invariant rest <= voteMap.Keys
        invariant forall v :: v in voteMap && v !in rest ==> Votes(rs, v) < 2
        invariant State() == old(State())
        decreases rest
      {
        var v :| v in rest;
        if |voteMap[v]| >= 2 {
          AgreedExactlyOnTwoVotes(rs, v);
          PunishDissenters(selected, voteMap[v], now);
          return Agreed(v), selected;
        }
        rest := rest - {v};
      }
      NoTwoVotes(rs);
      return NoConsensus, selected;
    }

    method PunishDissenters(selected: seq<NodeId>, agreeing: seq<NodeId>, now: nat)
      modifies this
      ensures State() == PunishAll(old(State()), selected, agreeing, now)
    {
      var i := 0;
      while i < |selected|
        invariant 0 <= i <= |selected|
        invariant State() == PunishAll(old(State()), selected[..i], agreeing, now)
      {
        assert selected[..i + 1][..i] == selected[..i];
        if selected[i] !in agreeing {
          PunishNode(selected[i], now);
        }
        i := i + 1;
      }
      assert selected[..|selected|] == selected;
    }

    /** Some three different positions, in some order. */
    method ChooseThree(eligible: seq<NodeId>) returns (selected: seq<NodeId>)
      requires |eligible| >= 3
      ensures CanSelect(eligible, selected) && |selected| == 3
    {
      var positions := Positions(|eligible|);
      assert 0 in positions && 1 in positions && 2 in positions;
      var i :| i in positions;
      var j :| j in positions && j != i;
      var k :| k in positions && k != i && k != j;
      selected := [eligible[i], eligible[j], eligible[k]];
      assert Drawn(eligible, selected, i, j, k);
    }
  }

  function Positions(n: nat): (ps: set<nat>)
    ensures forall p :: p in ps <==> 0 <= p < n
  {
    if n == 0 then {} else Positions(n - 1) + {n - 1}
  }

  /** Only eligible nodes are drawn. */
  lemma SelectionEligible(s: Router, available: seq<NodeId>, selected: seq<NodeId>)
    requires CanSelect(Eligible(s, available), selected)
    ensures |selected| == 3
    ensures forall n :: n in selected ==> n in available && !IsBlacklisted(s, n)
  {
  }

  /** From a list without duplicates three different nodes are drawn. */
  lemma SelectionDistinct(s: Router, available: seq<NodeId>, selected: seq<NodeId>)
    requires Distinct(available) && CanSelect(Eligible(s, available), selected)
    ensures Distinct(selected)
  {
    EligibleDistinct(s, available);
  }

  lemma {:induction false} EligibleDistinct(s: Router, available: seq<NodeId>)
    requires Distinct(available)
    ensures Distinct(Eligible(s, available))
  {
    if available != [] {
      EligibleDistinct(s, available[1..]);
      assert available[0] !in available[1..];
    }
  }

  /** Where an eligible node's position of the list goes among the eligible. */
  function Place(s: Router, available: seq<NodeId>, i: nat): nat
    requires i < |available|
  {
    |Eligible(s, available[..i])|
  }

  lemma {:induction false} PlaceHolds(s: Router, available: seq<NodeId>, i: nat)
    requires i < |available| && !IsBlacklisted(s, available[i])
    ensures var e := Eligible(s, available); Place(s, available, i) < |e| && e[Place(s, available, i)] == available[i]
    decreases i
  {
    hide IsBlacklisted;
    if i > 0 {
      PlaceHolds(s, available[1..], i - 1);
      assert available[..i][1..] == available[1..][..i - 1];
    }
  }

  lemma PlacesDiffer(s: Router, available: seq<NodeId>, i: nat, j: nat)
    requires i < j < |available| && !IsBlacklisted(s, available[i])
    ensures Place(s, available, i) < Place(s, available, j)
  {
    PlaceHolds(s, available[..j], i);
    assert available[..j][..i] == available[..i];
  }

  /** Three positions of the list whose nodes are eligible can be drawn. */
  lemma EligibleCanBeDrawn(s: Router, available: seq<NodeId>, selected: seq<NodeId>, i: nat, j: nat, k: nat)
    requires Drawn(available, selected, i, j, k)
    requires forall n :: n in selected ==> !IsBlacklisted(s, n)
    ensures CanSelect(Eligible(s, available), selected)
  {
    hide Eligible, Place, IsBlacklisted;
    assert selected[0] in selected && selected[1] in selected && selected[2] in selected;
    PlaceHolds(s, available, i);
    PlaceHolds(s, available, j);
    PlaceHolds(s, available, k);
    ApartPlaces(s, available, i, j);
    ApartPlaces(s, available, j, k);
    ApartPlaces(s, available, i, k);
    assert Drawn(Eligible(s, available), selected,
                 Place(s, available, i), Place(s, available, j), Place(s, available, k));
  }

  lemma ApartPlaces(s: Router, available: seq<NodeId>, i: nat, j: nat)
    requires i < |available| && j < |available| && i != j
    requires !IsBlacklisted(s, available[i]) && !IsBlacklisted(s, available[j])
    ensures Place(s, available, i) != Place(s, available, j)
  {
    if i < j {
      PlacesDiffer(s, available, i, j);
    } else {
      PlacesDiffer(s, available, j, i);
    }
  }
}
