/**
 Consensus rounds offered lists that may name a node more than once. Nothing in the
 program rules them out, and one node can then cast two of the three votes.
 */
module ConsensusRepeats {
  import opened MapSums
  import opened Consensus
  import opened ConsensusRuns

  function Members(offer: seq<NodeId>): set<NodeId> {
    set n | n in offer
  }

  /** A node listed twice can outvote every other node until it stands alone. */
  lemma TwiceListedStandsAlone(offer: seq<NodeId>, i: nat, j: nat) returns (rounds: seq<Round>)
    requires i < j < |offer| && offer[i] == offer[j]
    ensures Reaches(Members(offer), iset{offer}, rounds) && !TwoStanding(Run(EMPTY, rounds), Members(offer))
  {
    hide Run, Reaches, Strikes, Offers;
    var nodes, x := Members(offer), offer[i];
    NothingStruck(nodes, iset{offer});
    forall d | d in nodes - {x} ensures Offers(nodes, offer, d, x, x) {
      OfferTwice(offer, d, i, j);
    }
    rounds := StrikeEach(nodes, iset{offer}, [], _ => offer, x, x, nodes - {x});
  }

  lemma OfferTwice(offer: seq<NodeId>, d: NodeId, i: nat, j: nat)
    requires i < j < |offer| && offer[i] == offer[j] && d in offer && d != offer[i]
    ensures Offers(Members(offer), offer, d, offer[i], offer[i])
  {
    var k :| 0 <= k < |offer| && offer[k] == d;
    assert Drawn(offer, [d, offer[i], offer[i]], k, i, j);
  }

  /** When every round offers the same list of two nodes or more, two of them stay in
      play in all runs exactly when the list names no node twice. */
  lemma TwoStayInPlayExactlyWhen(offer: seq<NodeId>)
    requires |Members(offer)| >= 2
    ensures (forall rounds :: ValidRun(EMPTY, Members(offer), rounds) && OffersIn(iset{offer}, rounds) ==>
                                TwoStanding(Run(EMPTY, rounds), Members(offer)))
            <==> Distinct(offer)
  {
    hide Run, ValidRun, TwoStanding, Members;
    if Distinct(offer) {
      forall rounds | ValidRun(EMPTY, Members(offer), rounds) && OffersIn(iset{offer}, rounds)
        ensures TwoStanding(Run(EMPTY, rounds), Members(offer))
      {
        TwoStayInPlay(Members(offer), rounds);
      }
    } else {
      var i, j :| 0 <= i < j < |offer| && offer[i] == offer[j];
      var rounds := TwiceListedStandsAlone(offer, i, j);
    }
  }

  // ----- What holds for any lists --------------------------------------------------

  ghost predicate OneStanding(s: Router, nodes: set<NodeId>) {
    exists a :: a in nodes && !IsBlacklisted(s, a)
  }

  lemma OneStandingStep(s: Router, nodes: set<NodeId>, r: Round)
    requires OneStanding(s, nodes) && ValidRound(s, nodes, r)
    ensures OneStanding(NextRouter(s, r), nodes)
  {
    hide After, Eligible, CanSelect;
    if r.selected != [] {
      OneStrikeAtMost(s, nodes, r);
      SelectionEligible(s, r.available, r.selected);
      var ns, t := r.selected, NextRouter(s, r);
      var i, j :| 0 <= i < j < 3 && Strikes(t, ns[i]) == Strikes(s, ns[i]) && Strikes(t, ns[j]) == Strikes(s, ns[j]);
      var a := ns[i];
      assert a in ns;
      assert a in r.available && !IsBlacklisted(s, a);
      assert a in nodes && !IsBlacklisted(t, a);
    }
  }

  /** In every run, whatever lists are offered, one node stays in play. */
  lemma {:induction false} OneStaysInPlay(nodes: set<NodeId>, rounds: seq<Round>)
    requires nodes != {} && ValidRun(EMPTY, nodes, rounds)
    ensures OneStanding(Run(EMPTY, rounds), nodes)
    decreases |rounds|
  {
    hide NextRouter, ValidRound;
    if rounds == [] {
      var a :| a in nodes;
      assert !IsBlacklisted(EMPTY, a);
    } else {
      var last := |rounds| - 1;
      OneStaysInPlay(nodes, rounds[..last]);
      OneStandingStep(Run(EMPTY, rounds[..last]), nodes, rounds[last]);
    }
  }

  lemma AloneStep(s: Router, a: NodeId, r: Round)
    requires ValidRound(s, {a}, r)
    ensures Strikes(NextRouter(s, r), a) == Strikes(s, a)
  {
    hide After, Eligible, CanSelect;
    if r.selected != [] {
      OneStrikeAtMost(s, {a}, r);
      SelectionEligible(s, r.available, r.selected);
      var ns, t := r.selected, NextRouter(s, r);
      var i, j :| 0 <= i < j < 3 && Strikes(t, ns[i]) == Strikes(s, ns[i]) && Strikes(t, ns[j]) == Strikes(s, ns[j]);
      var b := ns[i];
      assert b in ns;
      assert b in r.available;
      assert b == a;
    }
  }

  /** A node that is the only one has nobody to strike it. */
  lemma {:induction false} AloneIsNeverStruck(a: NodeId, rounds: seq<Round>)
    requires ValidRun(EMPTY, {a}, rounds)
    ensures Strikes(Run(EMPTY, rounds), a) == 0
    decreases |rounds|
  {
    hide NextRouter, ValidRound;
    if rounds != [] {
      var last := |rounds| - 1;
      AloneIsNeverStruck(a, rounds[..last]);
      AloneStep(Run(EMPTY, rounds[..last]), a, rounds[last]);
    }
  }

  function MostStrikesOfAnyLists(n: nat): nat {
    if n < 2 then 0 else 3 * n - 1
  }

  /** Whatever lists are offered, all strikes among N nodes come to at most 3N - 1, or
      to none for a single node. */
  lemma StrikesInTotalOfAnyLists(nodes: set<NodeId>, rounds: seq<Round>)
    requires ValidRun(EMPTY, nodes, rounds)
    ensures Total(StrikeTable(Run(EMPTY, rounds), nodes)) <= MostStrikesOfAnyLists(|nodes|)
  {
    hide Run, ValidRun, Total;
    var t := Run(EMPTY, rounds);
    var m := StrikeTable(t, nodes);
    if nodes == {} {
      TotalBounded(m, 0);
    } else {
      RunKeepsRecords(nodes, rounds);
      OneStaysInPlay(nodes, rounds);
      var a :| a in nodes && !IsBlacklisted(t, a);
      var rest := m - {a};
      TotalRemove(m, a);
      assert rest.Keys == nodes - {a};
      assert |rest| == |rest.Keys| == |nodes| - 1;
      TotalBounded(rest, 3);
      if |nodes| == 1 {
        assert nodes == {a} by {
          assert nodes - {a} == {};
        }
        AloneIsNeverStruck(a, rounds);
      }
    }
  }

  /** `[d, x, x]` lets `x` outvote `d`. */
  lemma OfferPair(nodes: set<NodeId>, d: NodeId, x: NodeId)
    requires {d, x} <= nodes && d != x
    ensures Offers(nodes, [d, x, x], d, x, x)
  {
    assert Drawn([d, x, x], [d, x, x], 0, 1, 2);
  }

  ghost const THREES := iset ns: seq<NodeId> | |ns| == 3

  lemma OneTwoAndThreesRun(nodes: set<NodeId>, x: NodeId, y: NodeId) returns (rounds: seq<Round>)
    requires {x, y} <= nodes && x != y
    ensures Reaches(nodes, THREES, rounds)
    ensures forall n :: n in nodes ==> Strikes(Run(EMPTY, rounds), n) == if n == x then 2 else 3
  {
    hide Run, Reaches, Strikes, Offers;
    NothingStruck(nodes, THREES);
    OfferPair(nodes, x, y);
    rounds := StrikeTimes(nodes, THREES, [], [x, y, y], x, y, y, 2);
    forall d | d in nodes - {x} ensures [d, x, x] in THREES && Offers(nodes, [d, x, x], d, x, x) {
      OfferPair(nodes, d, x);
    }
    rounds := StrikeEach(nodes, THREES, rounds, d => [d, x, x], x, x, nodes - {x});
  }

  /** Among two nodes or more some run gives 3N - 1 strikes. */
  lemma MostStrikesOfAnyListsAreReached(nodes: set<NodeId>)
    requires |nodes| >= 2
    ensures exists rounds :: ValidRun(EMPTY, nodes, rounds)
                             && Total(StrikeTable(Run(EMPTY, rounds), nodes)) == MostStrikesOfAnyLists(|nodes|)
  {
    hide Run, ValidRun, Total, Strikes, OffersIn;
    var x :| x in nodes;
    assert |nodes - {x}| == |nodes| - 1;
    var y :| y in nodes - {x};
    var rounds := OneTwoAndThreesRun(nodes, x, y);
    var m := StrikeTable(Run(EMPTY, rounds), nodes);
    var rest := m - {x};
    TotalRemove(m, x);
    assert rest.Keys == nodes - {x};
    assert |rest| == |rest.Keys| == |nodes| - 1;
    TotalOfThrees(rest);
  }
}
