/** What holds over every run of consensus rounds among a fixed set of nodes. */
module ConsensusRuns {
  import opened MapSums
  import opened Consensus

  /** One call: the nodes offered, the three selected (none if too few are eligible), their replies. */
  datatype Call = Call(available: seq<NodeId>, selected: seq<NodeId>, replies: seq<Reply>, now: nat)

  type Round = c: Call | |c.replies| == |c.selected| witness Call([], [], [], 0)

  ghost predicate ValidRound(s: Router, nodes: set<NodeId>, r: Round) {
    && (forall n :: n in r.available ==> n in nodes)
    && if |Eligible(s, r.available)| < 3 then r.selected == [] else CanSelect(Eligible(s, r.available), r.selected)
  }

  ghost function NextRouter(s: Router, r: Round): Router {
    if r.selected == [] then s else After(s, r.selected, r.replies, r.now)
  }

  ghost function Run(s: Router, rounds: seq<Round>): Router {
    if rounds == [] then s else NextRouter(Run(s, rounds[..|rounds| - 1]), rounds[|rounds| - 1])
  }

  ghost predicate ValidRun(s: Router, nodes: set<NodeId>, rounds: seq<Round>) {
    rounds != [] ==>
      && ValidRun(s, nodes, rounds[..|rounds| - 1])
      && ValidRound(Run(s, rounds[..|rounds| - 1]), nodes, rounds[|rounds| - 1])
  }

  /** Every round offers one of these lists. */
  ghost predicate OffersIn(offers: iset<seq<NodeId>>, rounds: seq<Round>) {
    forall i :: 0 <= i < |rounds| ==> rounds[i].available in offers
  }

  ghost const DISTINCT := iset ns: seq<NodeId> | Distinct(ns)

  const EMPTY := Router(map[], map[])

  ghost predicate TwoStanding(s: Router, nodes: set<NodeId>) {
    exists a, b :: a in nodes && b in nodes && a != b && !IsBlacklisted(s, a) && !IsBlacklisted(s, b)
  }

  ghost predicate RecordsOk(s: Router, nodes: set<NodeId>) {
    forall n :: Strikes(s, n) == Failures(s, n) <= MAX_STRIKES && (n !in nodes ==> Strikes(s, n) == 0)
  }

  /** One node's record over one round. */
  lemma RecordStep(s: Router, nodes: set<NodeId>, r: Round, n: NodeId)
    requires Strikes(s, n) == Failures(s, n) <= MAX_STRIKES && (n !in nodes ==> Strikes(s, n) == 0)
    requires ValidRound(s, nodes, r)
    ensures var t := NextRouter(s, r);
            && Strikes(t, n) == Failures(t, n) <= MAX_STRIKES && (n !in nodes ==> Strikes(t, n) == 0)
            && Strikes(s, n) <= Strikes(t, n)
            && (n !in r.selected ==> Strikes(t, n) == Strikes(s, n))
    ensures n in r.selected ==> !IsBlacklisted(s, n)
  {
    hide After, Outcome, Eligible, CanSelect;
    if r.selected != [] {
      SelectionEligible(s, r.available, r.selected);
      StrikesAfterRound(s, r.selected, r.replies, r.now, n);
      assert n in r.selected ==> !IsBlacklisted(s, n) && n in nodes;
      assert n !in r.selected ==> Strikes(NextRouter(s, r), n) == Strikes(s, n);
    }
  }

  /** A round strikes at most one of the nodes it selects. */
  lemma OneStrikeAtMost(s: Router, nodes: set<NodeId>, r: Round)
    requires ValidRound(s, nodes, r) && r.selected != []
    ensures var t, ns := NextRouter(s, r), r.selected;
            && |ns| == 3
            && exists i, j :: 0 <= i < j < 3 && Strikes(t, ns[i]) == Strikes(s, ns[i]) && Strikes(t, ns[j]) == Strikes(s, ns[j])
  {
    hide After, Outcome, Eligible, CanSelect, Dissents;
    var t, ns := NextRouter(s, r), r.selected;
    SelectionEligible(s, r.available, ns);
    StrikesAfterRound(s, ns, r.replies, r.now, ns[0]);
    StrikesAfterRound(s, ns, r.replies, r.now, ns[1]);
    StrikesAfterRound(s, ns, r.replies, r.now, ns[2]);
    if Strikes(t, ns[0]) != Strikes(s, ns[0]) {
      assert Strikes(t, ns[1]) == Strikes(s, ns[1]) && Strikes(t, ns[2]) == Strikes(s, ns[2]);
    } else if Strikes(t, ns[1]) != Strikes(s, ns[1]) {
      assert Strikes(t, ns[0]) == Strikes(s, ns[0]) && Strikes(t, ns[2]) == Strikes(s, ns[2]);
    } else {
      assert Strikes(t, ns[0]) == Strikes(s, ns[0]) && Strikes(t, ns[1]) == Strikes(s, ns[1]);
    }
  }

  lemma RecordsStep(s: Router, nodes: set<NodeId>, r: Round)
    requires RecordsOk(s, nodes) && ValidRound(s, nodes, r)
    ensures RecordsOk(NextRouter(s, r), nodes)
  {
    hide NextRouter;
    var t := NextRouter(s, r);
    forall n
      ensures Strikes(t, n) == Failures(t, n) <= MAX_STRIKES && (n !in nodes ==> Strikes(t, n) == 0)
    {
      RecordStep(s, nodes, r, n);
    }
  }

  lemma StandingStep(s: Router, nodes: set<NodeId>, r: Round)
    requires RecordsOk(s, nodes) && TwoStanding(s, nodes) && ValidRound(s, nodes, r) && Distinct(r.available)
    ensures TwoStanding(NextRouter(s, r), nodes)
  {
    hide NextRouter;
    var t := NextRouter(s, r);
    if r.selected == [] {
      var a, b :| a in nodes && b in nodes && a != b && !IsBlacklisted(s, a) && !IsBlacklisted(s, b);
      RecordStep(s, nodes, r, a);
      RecordStep(s, nodes, r, b);
      assert !IsBlacklisted(t, a) && !IsBlacklisted(t, b);
    } else {
      OneStrikeAtMost(s, nodes, r);
      SelectionEligible(s, r.available, r.selected);
      SelectionDistinct(s, r.available, r.selected);
      var ns := r.selected;
      var i, j :| 0 <= i < j < 3 && Strikes(t, ns[i]) == Strikes(s, ns[i]) && Strikes(t, ns[j]) == Strikes(s, ns[j]);
      RecordStep(s, nodes, r, ns[i]);
      RecordStep(s, nodes, r, ns[j]);
      assert ns[i] in r.available && ns[j] in r.available;
      assert !IsBlacklisted(t, ns[i]) && !IsBlacklisted(t, ns[j]);
    }
  }

  /** In every run nobody has more than three strikes, strikes and recorded
      consensus failures agree, and only offered nodes have any. */
  lemma {:induction false} RunKeepsRecords(nodes: set<NodeId>, rounds: seq<Round>)
    requires ValidRun(EMPTY, nodes, rounds)
    ensures RecordsOk(Run(EMPTY, rounds), nodes)
    decreases |rounds|
  {
    hide NextRouter;
    if rounds != [] {
      var last := |rounds| - 1;
      RunKeepsRecords(nodes, rounds[..last]);
      RecordsStep(Run(EMPTY, rounds[..last]), nodes, rounds[last]);
    }
  }

  /** Two nodes stay in play in every run whose lists name each node once. */
  lemma {:induction false} TwoStayInPlay(nodes: set<NodeId>, rounds: seq<Round>)
    requires |nodes| >= 2 && ValidRun(EMPTY, nodes, rounds) && OffersIn(DISTINCT, rounds)
    ensures TwoStanding(Run(EMPTY, rounds), nodes)
    decreases |rounds|
  {
    hide NextRouter;
    if rounds == [] {
      var a :| a in nodes;
      assert nodes != {a};
      var b :| b in nodes && b != a;
      assert !IsBlacklisted(EMPTY, a) && !IsBlacklisted(EMPTY, b);
    } else {
      var last := |rounds| - 1;
      TwoStayInPlay(nodes, rounds[..last]);
      RunKeepsRecords(nodes, rounds[..last]);
      StandingStep(Run(EMPTY, rounds[..last]), nodes, rounds[last]);
    }
  }

  /** Strikes never decrease, from any state a run can reach. */
  lemma {:induction false} StrikesNeverDecrease(s: Router, nodes: set<NodeId>, rounds: seq<Round>, n: NodeId)
    requires RecordsOk(s, nodes) && ValidRun(s, nodes, rounds)
    ensures RecordsOk(Run(s, rounds), nodes)
    ensures Strikes(s, n) <= Strikes(Run(s, rounds), n)
    decreases |rounds|
  {
    hide NextRouter;
    if rounds != [] {
      var last := |rounds| - 1;
      StrikesNeverDecrease(s, nodes, rounds[..last], n);
      RecordsStep(Run(s, rounds[..last]), nodes, rounds[last]);
      RecordStep(Run(s, rounds[..last]), nodes, rounds[last], n);
    }
  }

  /** A blacklisted node is never queried again, whatever happens in between. */
  lemma BlacklistIsPermanent(nodes: set<NodeId>, before: seq<Round>, between: seq<Round>, r: Round, n: NodeId)
    requires ValidRun(EMPTY, nodes, before)
    requires IsBlacklisted(Run(EMPTY, before), n)
    requires ValidRun(Run(EMPTY, before), nodes, between)
    requires ValidRound(Run(Run(EMPTY, before), between), nodes, r)
    ensures IsBlacklisted(Run(Run(EMPTY, before), between), n) && n !in r.selected
  {
    hide NextRouter;
    var s := Run(EMPTY, before);
    RunKeepsRecords(nodes, before);
    StrikesNeverDecrease(s, nodes, between, n);
    RecordStep(Run(s, between), nodes, r, n);
  }

  ghost function StrikeTable(s: Router, nodes: set<NodeId>): map<NodeId, nat> {
    map n | n in nodes :: Strikes(s, n)
  }

  lemma {:induction false} TotalBounded(m: map<NodeId, nat>, bound: nat)
    requires forall n :: n in m ==> m[n] <= bound
    ensures Total(m) <= bound * |m|
    decreases |m|
  {
    if m != map[] {
      var n :| n in m;
      TotalRemove(m, n);
      assert (m - {n}).Keys == m.Keys - {n};
      TotalBounded(m - {n}, bound);
      assert |m - {n}| == |m| - 1;
      OneMore(bound, |m - {n}|);
    }
  }

  lemma OneMore(bound: nat, k: nat)
    ensures bound * (k + 1) == bound * k + bound
  {
  }

  lemma {:induction false} TooFewNodes(nodes: set<NodeId>, rounds: seq<Round>)
    requires |nodes| < 3 && ValidRun(EMPTY, nodes, rounds) && OffersIn(DISTINCT, rounds)
    ensures Run(EMPTY, rounds) == EMPTY
    decreases |rounds|
  {
    hide ValidRound;
    if rounds != [] {
      var last := |rounds| - 1;
      TooFewNodes(nodes, rounds[..last]);
      var r := rounds[last];
      if r.selected != [] {
        ThreeAreOffered(EMPTY, nodes, r);
      }
    }
  }

  lemma ThreeAreOffered(s: Router, nodes: set<NodeId>, r: Round)
    requires ValidRound(s, nodes, r) && r.selected != [] && Distinct(r.available)
    ensures |nodes| >= 3
  {
    hide Eligible, CanSelect;
    var ns := r.selected;
    SelectionEligible(s, r.available, ns);
    SelectionDistinct(s, r.available, ns);
    assert ns[0] in ns && ns[1] in ns && ns[2] in ns;
    SubsetSize({ns[0], ns[1], ns[2]}, nodes);
  }

  lemma {:induction false} SubsetSize(a: set<NodeId>, b: set<NodeId>)
    requires a <= b
    ensures |a| <= |b|
    decreases |a|
  {
    if a != {} {
      var n :| n in a;
      SubsetSize(a - {n}, b - {n});
    }
  }

  function MostStrikes(n: nat): nat {
    if n < 3 then 0 else 3 * n - 2
  }

  /** With lists that name each node once, all strikes ever given among N nodes come
      to at most 3N - 2, or to none for fewer than three nodes. */
  lemma StrikesInTotal(nodes: set<NodeId>, rounds: seq<Round>)
    requires ValidRun(EMPTY, nodes, rounds) && OffersIn(DISTINCT, rounds)
    ensures Total(StrikeTable(Run(EMPTY, rounds), nodes)) <= MostStrikes(|nodes|)
  {
    var t := Run(EMPTY, rounds);
    var m := StrikeTable(t, nodes);
    if |nodes| < 3 {
      TooFewNodes(nodes, rounds);
      TotalBounded(m, 0);
    } else {
      RunKeepsRecords(nodes, rounds);
      TwoStayInPlay(nodes, rounds);
      var a, b :| a in nodes && b in nodes && a != b && !IsBlacklisted(t, a) && !IsBlacklisted(t, b);
      TotalRemove(m, a);
      TotalRemove(m - {a}, b);
      var rest := m - {a} - {b};
      assert rest.Keys == nodes - {a} - {b};
      assert |rest| == |rest.Keys| == |nodes| - 2;
      TotalBounded(rest, 3);
    }
  }

  // ----- Runs that strike nodes at will ------------------------------------------

  /** A round in which `d` alone fails to answer; `x` and `y` may be one node listed twice. */
  function FailedRound(offer: seq<NodeId>, d: NodeId, x: NodeId, y: NodeId): Round {
    Call(offer, [d, x, y], [Failed, Answer(""), Answer("")], 0)
  }

  lemma FailedRoundStrikes(s: Router, offer: seq<NodeId>, d: NodeId, x: NodeId, y: NodeId, n: NodeId)
    requires d != x && d != y
    ensures Strikes(NextRouter(s, FailedRound(offer, d, x, y)), n) == Strikes(s, n) + if n == d then 1 else 0
  {
    hide Outcome, After, Strikes, Votes;
    var ns, rs := [d, x, y], [Failed, Answer(""), Answer("")];
    VotesOfThree(rs, "");
    AgreedExactlyOnTwoVotes(rs, "");
    StrikesAfterRound(s, ns, rs, 0, n);
    assert ns[0] == d && ns[1] == x && ns[2] == y;
    assert Dissents(ns, rs, "", n) <==> n == d;
  }

  /** The list offers `d`, `x` and `y` at three different positions. */
  ghost predicate Offers(nodes: set<NodeId>, offer: seq<NodeId>, d: NodeId, x: NodeId, y: NodeId) {
    && (forall n :: n in offer ==> n in nodes)
    && d != x && d != y && exists i, j, k :: Drawn(offer, [d, x, y], i, j, k)
  }

  lemma FailedRoundIsValid(s: Router, nodes: set<NodeId>, offer: seq<NodeId>, d: NodeId, x: NodeId, y: NodeId)
    requires Offers(nodes, offer, d, x, y)
    requires !IsBlacklisted(s, d) && !IsBlacklisted(s, x) && !IsBlacklisted(s, y)
    ensures ValidRound(s, nodes, FailedRound(offer, d, x, y))
  {
    hide Eligible, IsBlacklisted;
    var i, j, k :| Drawn(offer, [d, x, y], i, j, k);
    EligibleCanBeDrawn(s, offer, [d, x, y], i, j, k);
  }

  ghost predicate Reaches(nodes: set<NodeId>, offers: iset<seq<NodeId>>, rounds: seq<Round>) {
    ValidRun(EMPTY, nodes, rounds) && OffersIn(offers, rounds)
  }

  lemma StrikeOnce(nodes: set<NodeId>, offers: iset<seq<NodeId>>, rounds: seq<Round>, offer: seq<NodeId>,
                   d: NodeId, x: NodeId, y: NodeId) returns (longer: seq<Round>)
    requires Reaches(nodes, offers, rounds) && offer in offers && Offers(nodes, offer, d, x, y)
    requires var s := Run(EMPTY, rounds); !IsBlacklisted(s, d) && !IsBlacklisted(s, x) && !IsBlacklisted(s, y)
    ensures Reaches(nodes, offers, longer)
    ensures forall n :: Strikes(Run(EMPTY, longer), n) == Strikes(Run(EMPTY, rounds), n) + if n == d then 1 else 0
  {
    hide NextRouter, ValidRound, Strikes;
    var s, r := Run(EMPTY, rounds), FailedRound(offer, d, x, y);
    longer := rounds + [r];
    assert longer[..|rounds|] == rounds;
    FailedRoundIsValid(s, nodes, offer, d, x, y);
    forall n ensures Strikes(NextRouter(s, r), n) == Strikes(s, n) + if n == d then 1 else 0 {
      FailedRoundStrikes(s, offer, d, x, y, n);
    }
  }

  lemma {:induction false} StrikeTimes(nodes: set<NodeId>, offers: iset<seq<NodeId>>, rounds: seq<Round>,
      offer: seq<NodeId>, d: NodeId, x: NodeId, y: NodeId, k: nat) returns (longer: seq<Round>)
    requires Reaches(nodes, offers, rounds) && offer in offers && Offers(nodes, offer, d, x, y)
    requires var s := Run(EMPTY, rounds);
             Strikes(s, d) + k <= MAX_STRIKES && !IsBlacklisted(s, x) && !IsBlacklisted(s, y)
    ensures Reaches(nodes, offers, longer)
    ensures forall n :: Strikes(Run(EMPTY, longer), n) == Strikes(Run(EMPTY, rounds), n) + if n == d then k else 0
    decreases k
  {
    hide Run, Reaches, Strikes, Offers;
    longer := rounds;
    if k > 0 {
      NotItself(nodes, offer, d, x, y);
      longer := StrikeTimes(nodes, offers, rounds, offer, d, x, y, k - 1);
      longer := StrikeOnce(nodes, offers, longer, offer, d, x, y);
    }
  }

  lemma NotItself(nodes: set<NodeId>, offer: seq<NodeId>, d: NodeId, x: NodeId, y: NodeId)
    requires Offers(nodes, offer, d, x, y)
    ensures d != x && d != y
  {
  }

  /** Every node of `todo` is struck three times, with `x` and `y` as its witnesses. */
  lemma {:induction false} StrikeEach(nodes: set<NodeId>, offers: iset<seq<NodeId>>, rounds: seq<Round>,
      offer: NodeId -> seq<NodeId>, x: NodeId, y: NodeId, todo: set<NodeId>) returns (longer: seq<Round>)
    requires Reaches(nodes, offers, rounds)
    requires forall d :: d in todo ==> offer(d) in offers && Offers(nodes, offer(d), d, x, y)
    requires var s := Run(EMPTY, rounds);
             !IsBlacklisted(s, x) && !IsBlacklisted(s, y) && forall n :: n in todo ==> Strikes(s, n) == 0
    ensures Reaches(nodes, offers, longer)
    ensures forall n :: Strikes(Run(EMPTY, longer), n) == if n in todo then MAX_STRIKES else Strikes(Run(EMPTY, rounds), n)
    decreases |todo|
  {
    hide Run, Reaches, Strikes, Offers;
    longer := rounds;
    if todo != {} {
      var d :| d in todo;
      forall e | e in todo ensures e != x && e != y {
        NotItself(nodes, offer(e), e, x, y);
      }
      longer := StrikeEach(nodes, offers, rounds, offer, x, y, todo - {d});
      longer := StrikeTimes(nodes, offers, longer, offer(d), d, x, y, MAX_STRIKES);
    }
  }

  lemma NothingStruck(nodes: set<NodeId>, offers: iset<seq<NodeId>>)
    ensures Reaches(nodes, offers, []) && forall n :: Strikes(Run(EMPTY, []), n) == 0
  {
  }

  // ----- The bound is met --------------------------------------------------------

  lemma {:induction false} TotalOfThrees(m: map<NodeId, nat>)
    requires forall n :: n in m ==> m[n] == 3
    ensures Total(m) == 3 * |m|
    decreases |m|
  {
    if m != map[] {
      var n :| n in m;
      TotalRemove(m, n);
      assert (m - {n}).Keys == m.Keys - {n};
      TotalOfThrees(m - {n});
      assert |m - {n}| == |m| - 1;
    }
  }

  lemma TwoTwosAndThrees(m: map<NodeId, nat>, a: NodeId, b: NodeId)
    requires a in m && b in m && a != b && m[a] == m[b] == 2
    requires forall n :: n in m && n != a && n != b ==> m[n] == 3
    ensures Total(m) == 3 * |m| - 2
  {
    TotalRemove(m, a);
    TotalRemove(m - {a}, b);
    var rest := m - {a} - {b};
    assert rest.Keys == m.Keys - {a} - {b};
    assert |rest| == |rest.Keys| == |m.Keys| - 2;
    TotalOfThrees(rest);
  }

  lemma ThreeNodes(nodes: set<NodeId>) returns (a: NodeId, b: NodeId, c: NodeId)
    requires |nodes| >= 3
    ensures {a, b, c} <= nodes && a != b && b != c && a != c
  {
    a :| a in nodes;
    assert |nodes - {a}| == |nodes| - 1;
    b :| b in nodes - {a};
    assert |nodes - {a} - {b}| == |nodes| - 2;
    c :| c in nodes - {a} - {b};
  }

  lemma OfferThree(nodes: set<NodeId>, d: NodeId, x: NodeId, y: NodeId)
    requires {d, x, y} <= nodes && d != x && d != y && x != y
    ensures [d, x, y] in DISTINCT && Offers(nodes, [d, x, y], d, x, y)
  {
    assert Drawn([d, x, y], [d, x, y], 0, 1, 2);
  }

  lemma MostStrikesRun(nodes: set<NodeId>, a: NodeId, b: NodeId, c: NodeId) returns (rounds: seq<Round>)
    requires {a, b, c} <= nodes && a != b && b != c && a != c
    ensures Reaches(nodes, DISTINCT, rounds)
    ensures forall n :: n in nodes ==> Strikes(Run(EMPTY, rounds), n) == if n == a || n == b then 2 else 3
  {
    hide Run, Reaches, Strikes, DISTINCT, Offers;
    NothingStruck(nodes, DISTINCT);
    OfferThree(nodes, a, b, c);
    OfferThree(nodes, b, a, c);
    rounds := StrikeTimes(nodes, DISTINCT, [], [a, b, c], a, b, c, 2);
    rounds := StrikeTimes(nodes, DISTINCT, rounds, [b, a, c], b, a, c, 2);
    forall d | d in nodes - {a, b} ensures [d, a, b] in DISTINCT && Offers(nodes, [d, a, b], d, a, b) {
      OfferThree(nodes, d, a, b);
    }
    rounds := StrikeEach(nodes, DISTINCT, rounds, d => [d, a, b], a, b, nodes - {a, b});
  }

  /** Among three nodes or more some run gives 3N - 2 strikes: two nodes are struck
      twice and every other one three times. */
  lemma MostStrikesAreReached(nodes: set<NodeId>)
    requires |nodes| >= 3
    ensures exists rounds :: ValidRun(EMPTY, nodes, rounds) && OffersIn(DISTINCT, rounds)
                             && Total(StrikeTable(Run(EMPTY, rounds), nodes)) == MostStrikes(|nodes|)
  {
    hide Run, ValidRun, Total, Strikes, OffersIn;
    var a, b, c := ThreeNodes(nodes);
    var rounds := MostStrikesRun(nodes, a, b, c);
    var m := StrikeTable(Run(EMPTY, rounds), nodes);
    assert m.Keys == nodes;
    TwoTwosAndThrees(m, a, b);
    assert |m| == |m.Keys|;
    assert Total(m) == MostStrikes(|nodes|);
  }

  // ----- When a node was first struck ---------------------------------------------

  lemma TimeStep(s: Router, r: Round, n: NodeId)
    requires r.selected == [] || |r.selected| == 3
    ensures var t := NextRouter(s, r);
            && (n in t.blacklist <==> n in s.blacklist || Strikes(t, n) > Strikes(s, n))
            && (n in t.blacklist ==>
                  t.blacklist[n].timestamp == if n in s.blacklist then s.blacklist[n].timestamp else r.now)
  {
    hide Votes, Voters;
    if r.selected != [] && Outcome(r.replies).Agreed? {
      PunishThree(s, r.selected, Voters(r.selected, r.replies, Outcome(r.replies).value), r.now);
    }
  }

  /** In round `i` the node got its first strike. */
  ghost predicate FirstStruckAt(rounds: seq<Round>, i: nat, n: NodeId) {
    i < |rounds| && Strikes(Run(EMPTY, rounds[..i]), n) == 0 && Strikes(Run(EMPTY, rounds[..i + 1]), n) > 0
  }

  lemma {:induction false} ListedMeansStruck(nodes: set<NodeId>, rounds: seq<Round>, n: NodeId)
    requires ValidRun(EMPTY, nodes, rounds)
    ensures n in Run(EMPTY, rounds).blacklist <==> Strikes(Run(EMPTY, rounds), n) > 0
    decreases |rounds|
  {
    hide NextRouter, ValidRound;
    if rounds != [] {
      var last := |rounds| - 1;
      var s, r := Run(EMPTY, rounds[..last]), rounds[last];
      ListedMeansStruck(nodes, rounds[..last], n);
      RunKeepsRecords(nodes, rounds[..last]);
      RecordStep(s, nodes, r, n);
      SelectedAreThree(s, nodes, r);
      TimeStep(s, r, n);
    }
  }

  lemma SelectedAreThree(s: Router, nodes: set<NodeId>, r: Round)
    requires ValidRound(s, nodes, r)
    ensures r.selected == [] || |r.selected| == 3
  {
    hide Eligible;
    if r.selected != [] {
      SelectionEligible(s, r.available, r.selected);
    }
  }

  /** The time in a node's entry is that of the round of its first strike, whatever
      strikes it later. */
  lemma {:induction false} EntryKeepsFirstTime(nodes: set<NodeId>, rounds: seq<Round>, n: NodeId) returns (i: nat)
    requires ValidRun(EMPTY, nodes, rounds) && n in Run(EMPTY, rounds).blacklist
    ensures FirstStruckAt(rounds, i, n) && Run(EMPTY, rounds).blacklist[n].timestamp == rounds[i].now
    decreases |rounds|
  {
    hide NextRouter, ValidRound, Strikes;
    var last := |rounds| - 1;
    var s, r := Run(EMPTY, rounds[..last]), rounds[last];
    ListedMeansStruck(nodes, rounds, n);
    ListedMeansStruck(nodes, rounds[..last], n);
    SelectedAreThree(s, nodes, r);
    TimeStep(s, r, n);
    if n in s.blacklist {
      i := EntryKeepsFirstTime(nodes, rounds[..last], n);
      assert rounds[..last][..i] == rounds[..i] && rounds[..last][..i + 1] == rounds[..i + 1];
    } else {
      i := last;
      assert rounds[..last + 1] == rounds;
    }
  }

  // ----- Truthful nodes -------------------------------------------------------

  /** In round `r` at least two of the selected nodes are in `honest`, and all of those report `truth`. */
  ghost predicate HonestMajority(honest: set<NodeId>, r: Round, truth: string) {
    && (exists i, j :: 0 <= i < j < |r.selected| && r.selected[i] in honest && r.selected[j] in honest)
    && forall i :: 0 <= i < |r.selected| && r.selected[i] in honest ==> r.replies[i] == Answer(truth)
  }

  /** Two truthful nodes of three carry the round and are not struck by it. */
  lemma HonestMajorityWins(s: Router, honest: set<NodeId>, r: Round, truth: string)
    requires |r.selected| == 3 && HonestMajority(honest, r, truth)
    ensures Outcome(r.replies) == Agreed(truth)
    ensures forall n :: n in honest ==> Strikes(NextRouter(s, r), n) == Strikes(s, n)
  {
    VotesOfThree(r.replies, truth);
    AgreedExactlyOnTwoVotes(r.replies, truth);
    forall n | n in honest {
      StrikesAfterRound(s, r.selected, r.replies, r.now, n);
    }
  }

  /** Over a run in which every queried round has an honest majority for its truth,
      always-truthful nodes are never struck, let alone blacklisted. */
  lemma {:induction false} HonestNodesStayClean(nodes: set<NodeId>, rounds: seq<Round>, truths: seq<string>,
                                                honest: set<NodeId>)
    requires |truths| == |rounds| && ValidRun(EMPTY, nodes, rounds)
    requires forall i :: 0 <= i < |rounds| && rounds[i].selected != [] ==> HonestMajority(honest, rounds[i], truths[i])
    ensures forall n :: n in honest ==> Strikes(Run(EMPTY, rounds), n) == 0
    ensures forall i :: 0 <= i < |rounds| && rounds[i].selected != [] ==> Outcome(rounds[i].replies) == Agreed(truths[i])
    decreases |rounds|
  {
    hide Outcome, NextRouter, Strikes, HonestMajority, ValidRound;
    if rounds == [] {
      NothingStruck(nodes, iset{});
    } else {
      var last := |rounds| - 1;
      var s, r := Run(EMPTY, rounds[..last]), rounds[last];
      HonestNodesStayClean(nodes, rounds[..last], truths[..last], honest);
      HonestRound(s, nodes, honest, r, truths[last]);
      forall i | 0 <= i < |rounds| && rounds[i].selected != []
        ensures Outcome(rounds[i].replies) == Agreed(truths[i])
      {
        if i < last {
          assert rounds[..last][i] == rounds[i] && truths[..last][i] == truths[i];
        }
      }
    }
  }

  lemma HonestRound(s: Router, nodes: set<NodeId>, honest: set<NodeId>, r: Round, truth: string)
    requires ValidRound(s, nodes, r) && (r.selected != [] ==> HonestMajority(honest, r, truth))
    ensures r.selected != [] ==> Outcome(r.replies) == Agreed(truth)
    ensures forall n :: n in honest ==> Strikes(NextRouter(s, r), n) == Strikes(s, n)
  {
    hide Outcome, After, Strikes, HonestMajority, Eligible;
    if r.selected != [] {
      HonestMajorityWins(s, honest, r, truth);
    }
  }
}
