/** Properties of every run of the registry program from genesis. */
module LedgerRuns {
  import opened Common
  import opened MapSums
  import opened Emission
  import opened Ledger

  /** Before deployment: no program accounts, any wallets and escrow balances, any token supply. */
  ghost predicate Genesis(s: Accounts) {
    && s.nodes == map[] && s.batches == map[] && s.program.None? && s.minted == map[]
    && s.supply <= MAX_U64
  }

  /** The life cycle of one node account. */
  ghost predicate NodeOk(owner: Pubkey, n: NodeAccount) {
    && n.owner == owner && !n.locked
    && n.reputation in {0, 20, 40, 60, 80, 100}
    && (n.reputation > 0 <==> n.isInitialized)
    && (n.isInitialized ==> n.stakeAmount >= MIN_STAKE)
    && (!n.isInitialized ==> n.stakeAmount == 0)
  }

  ghost predicate NodesOk(s: Accounts) {
    forall o :: o in s.nodes ==> NodeOk(o, s.nodes[o]) && s.nodes[o].requestsServed <= Count(s)
  }

  /** Everything issued is accounted for by the global request count. */
  ghost predicate IssuanceOk(s: Accounts, genesisSupply: nat) {
    && Count(s) <= COUNT_LIMIT
    && s.supply == genesisSupply + Emitted(Count(s)) <= MAX_U64
    && Total(s.minted) == Emitted(Count(s))
    && Total(ReceiptCounts(s.batches)) == Count(s)
  }

  ghost predicate Inv(s: Accounts, genesisSupply: nat) {
    NodesOk(s) && IssuanceOk(s, genesisSupply)
  }

  lemma NodeStep(s: Accounts, ix: Instruction, o: Pubkey)
    requires o in s.nodes ==> NodeOk(o, s.nodes[o]) && s.nodes[o].requestsServed <= Count(s)
    ensures var t := Next(s, ix);
            o in t.nodes ==> NodeOk(o, t.nodes[o]) && t.nodes[o].requestsServed <= Count(t)
  {
    hide Emitted;
  }

  lemma NodesStep(s: Accounts, ix: Instruction)
    requires NodesOk(s)
    ensures NodesOk(Next(s, ix))
  {
    hide Next, NodeOk;
    forall o | o in Next(s, ix).nodes
      ensures NodeOk(o, Next(s, ix).nodes[o]) && Next(s, ix).nodes[o].requestsServed <= Count(Next(s, ix))
    {
      NodeStep(s, ix, o);
    }
  }

  lemma IssuanceStep(s: Accounts, ix: Instruction, genesisSupply: nat)
    requires IssuanceOk(s, genesisSupply)
    ensures IssuanceOk(Next(s, ix), genesisSupply)
  {
    hide Emitted;
    if ix.Settle? && Apply(s, ix).Committed? {
      SettleIssues(s, ix, genesisSupply);
    }
  }

  lemma SettleIssues(s: Accounts, ix: Instruction, genesisSupply: nat)
    requires IssuanceOk(s, genesisSupply) && ix.Settle? && Apply(s, ix).Committed?
    ensures IssuanceOk(Next(s, ix), genesisSupply)
  {
    hide Emitted, Total;
    var count, reward, t := Count(s), Reward(Count(s), ix.receipts), Next(s, ix);
    assert Apply(s, ix) == ApplySettle(s, ix);
    TotalUpdate(s.minted, ix.owner, Get(s.minted, ix.owner) + reward);
    TotalUpdate(ReceiptCounts(s.batches), ix.batchId, ix.receipts);
    assert ReceiptCounts(t.batches) == ReceiptCounts(s.batches)[ix.batchId := ix.receipts];
    assert Total(t.minted) == Total(s.minted) + reward;
  }

  lemma GenesisInv(s: Accounts)
    requires Genesis(s)
    ensures Inv(s, s.supply)
  {
    assert ReceiptCounts(s.batches) == map[];
  }

  lemma {:induction false} RunInv(s: Accounts, ixs: seq<Instruction>)
    requires Genesis(s)
    ensures Inv(Run(s, ixs), s.supply)
    decreases |ixs|
  {
    hide Next, NodesOk, IssuanceOk;
    if ixs == [] {
      GenesisInv(s);
    } else {
      var n := |ixs| - 1;
      RunInv(s, ixs[..n]);
      NodesStep(Run(s, ixs[..n]), ixs[n]);
      IssuanceStep(Run(s, ixs[..n]), ixs[n], s.supply);
    }
  }

  /** Total reward issued is a function of the global request count alone, however
      the requests were split over batches, owners and order; it is capped, and
      the receipts recorded in batch records add up to the count. */
  lemma IssuedIsFunctionOfCount(s: Accounts, ixs: seq<Instruction>)
    requires Genesis(s)
    ensures var t := Run(s, ixs);
            && t.supply - s.supply == Total(t.minted) == Emitted(Count(t)) <= HALVING_INTERVAL * ALL_ERAS
            && Total(ReceiptCounts(t.batches)) == Count(t) <= COUNT_LIMIT
            && (Total(t.minted) == HALVING_INTERVAL * ALL_ERAS <==> Count(t) >= 34 * HALVING_INTERVAL)
  {
    RunInv(s, ixs);
    EmissionCap(Count(Run(s, ixs)));
  }

  /** In a reachable state settlement is refused in these cases and no other: in
      particular a node passes the reputation test exactly when it is registered,
      and its statistics counter never overflows. */
  lemma SettleCommitsExactlyWhen(s: Accounts, ixs: seq<Instruction>, ix: Instruction)
    requires Genesis(s) && ix.Settle?
    ensures var t := Run(s, ixs);
            Apply(t, ix).Committed? <==>
            && ix.owner in t.nodes && t.nodes[ix.owner].isInitialized
            && ix.batchId !in t.batches && t.program.Some?
            && ix.lamports <= Get(t.escrows, ix.owner)
            && Count(t) + ix.receipts <= COUNT_LIMIT
            && s.supply + Emitted(Count(t) + ix.receipts) <= MAX_U64
  {
    hide Run, Emitted;
    RunInv(s, ixs);
    EmittedMonotone(Count(Run(s, ixs)), Count(Run(s, ixs)) + ix.receipts);
  }

  // ----- Lamports -------------------------------------------------------------

  lemma TransferConserves(from: map<Pubkey, nat>, to: map<Pubkey, nat>, a: Pubkey, b: Pubkey, amount: nat)
    requires amount <= Get(from, a)
    ensures Total(Sub(from, a, amount)) + Total(Add(to, b, amount)) == Total(from) + Total(to)
  {
    TotalUpdate(from, a, Get(from, a) - amount);
    TotalUpdate(to, b, Get(to, b) + amount);
  }

  /** No instruction creates or destroys lamports (rent and fees aside). */
  lemma LamportsConserved(s: Accounts, ix: Instruction)
    ensures var t := Next(s, ix);
            Total(t.wallets) + Total(t.escrows) == Total(s.wallets) + Total(s.escrows)
  {
    hide Emitted, Total, Add, Sub;
    if Apply(s, ix).Committed? {
      match ix {
        case RegisterNode(owner, _, stake, _) =>
          TransferConserves(s.wallets, s.escrows, owner, owner, stake);
        case Settle(owner, _, lamports, _, _, _) =>
          TransferConserves(s.escrows, s.wallets, owner, owner, lamports);
        case SlashNode(_, owner) =>
          if s.nodes[owner].reputation < 40 {
            TransferConserves(s.escrows, s.wallets, owner, owner, s.nodes[owner].stakeAmount / 2);
          }
        case Fund(sender, owner, amount) =>
          TransferConserves(s.wallets, s.escrows, sender, owner, amount);
        case InitializeProtocol(_, _, _) =>
        case StakeForPriority(_, _, _) =>
      }
    }
  }

  lemma {:induction false} RunConservesLamports(s: Accounts, ixs: seq<Instruction>)
    ensures var t := Run(s, ixs);
            Total(t.wallets) + Total(t.escrows) == Total(s.wallets) + Total(s.escrows)
    decreases |ixs|
  {
    if ixs != [] {
      RunConservesLamports(s, ixs[..|ixs| - 1]);
      LamportsConserved(Run(s, ixs[..|ixs| - 1]), ixs[|ixs| - 1]);
    }
  }

  /** What has flowed through one owner's escrow. */
  datatype Flows = Flows(deposits: nat, funding: nat, payouts: nat, refunds: nat)

  /** One committed instruction's entry; half of the stake goes back at ejection. */
  ghost function StepFlows(s: Accounts, ix: Instruction, owner: Pubkey): Flows {
    if Apply(s, ix).Aborted? then Flows(0, 0, 0, 0) else
    match ix
    case RegisterNode(o, _, stake, _) => Flows(if o == owner then stake else 0, 0, 0, 0)
    case Fund(_, o, amount) => Flows(0, if o == owner then amount else 0, 0, 0)
    case Settle(o, _, lamports, _, _, _) => Flows(0, 0, if o == owner then lamports else 0, 0)
    case SlashNode(_, o) =>
      Flows(0, 0, 0, if o == owner && s.nodes[o].reputation < 40 then s.nodes[o].stakeAmount / 2 else 0)
    case InitializeProtocol(_, _, _) => Flows(0, 0, 0, 0)
    case StakeForPriority(_, _, _) => Flows(0, 0, 0, 0)
  }

  ghost function EscrowFlows(s: Accounts, ixs: seq<Instruction>, owner: Pubkey): Flows {
    if ixs == [] then Flows(0, 0, 0, 0) else
      var f := EscrowFlows(s, ixs[..|ixs| - 1], owner);
      var g := StepFlows(Run(s, ixs[..|ixs| - 1]), ixs[|ixs| - 1], owner);
      Flows(f.deposits + g.deposits, f.funding + g.funding, f.payouts + g.payouts, f.refunds + g.refunds)
  }

  lemma EscrowStep(s: Accounts, ix: Instruction, owner: Pubkey)
    ensures var f := StepFlows(s, ix, owner);
            Get(Next(s, ix).escrows, owner) + f.payouts + f.refunds
            == Get(s.escrows, owner) + f.deposits + f.funding
  {
    hide Emitted;
  }

  /** The settlement ledger: every escrow balance is its opening balance plus
      deposits and funding, minus payouts and slash refunds, in every run. */
  lemma {:induction false} EscrowBalances(s: Accounts, ixs: seq<Instruction>, owner: Pubkey)
    ensures var f := EscrowFlows(s, ixs, owner);
            Get(Run(s, ixs).escrows, owner) + f.payouts + f.refunds
            == Get(s.escrows, owner) + f.deposits + f.funding
    decreases |ixs|
  {
    hide Next, StepFlows;
    if ixs != [] {
      EscrowBalances(s, ixs[..|ixs| - 1], owner);
      EscrowStep(Run(s, ixs[..|ixs| - 1]), ixs[|ixs| - 1], owner);
    }
  }

  // ----- Batches --------------------------------------------------------------

  /** How often a batch id was settled in a run. */
  ghost function Settlements(s: Accounts, ixs: seq<Instruction>, id: Hash): nat {
    if ixs == [] then 0 else
      var before, ix := Run(s, ixs[..|ixs| - 1]), ixs[|ixs| - 1];
      Settlements(s, ixs[..|ixs| - 1], id) + if SettlesBatch(before, ix, id) then 1 else 0
  }

  ghost predicate SettlesBatch(s: Accounts, ix: Instruction, id: Hash) {
    ix.Settle? && ix.batchId == id && Apply(s, ix).Committed?
  }

  lemma BatchStep(s: Accounts, ix: Instruction, id: Hash)
    ensures id in Next(s, ix).batches <==> id in s.batches || SettlesBatch(s, ix, id)
    ensures id in s.batches ==> !SettlesBatch(s, ix, id) && Next(s, ix).batches[id] == s.batches[id]
  {
    hide Emitted;
  }

  /** Each batch id is settled at most once, exactly when a record exists for it. */
  lemma {:induction false} BatchSettledAtMostOnce(s: Accounts, ixs: seq<Instruction>, id: Hash)
    requires Genesis(s)
    ensures Settlements(s, ixs, id) == if id in Run(s, ixs).batches then 1 else 0
    decreases |ixs|
  {
    hide Next, SettlesBatch;
    if ixs != [] {
      BatchSettledAtMostOnce(s, ixs[..|ixs| - 1], id);
      BatchStep(Run(s, ixs[..|ixs| - 1]), ixs[|ixs| - 1], id);
    }
  }

  /** A batch record is never rewritten by anything that happens later. */
  lemma {:induction false} BatchRecordsAreFinal(s: Accounts, ixs: seq<Instruction>, id: Hash)
    requires id in s.batches
    ensures id in Run(s, ixs).batches && Run(s, ixs).batches[id] == s.batches[id]
    decreases |ixs|
  {
    hide Next;
    if ixs != [] {
      BatchRecordsAreFinal(s, ixs[..|ixs| - 1], id);
      BatchStep(Run(s, ixs[..|ixs| - 1]), ixs[|ixs| - 1], id);
    }
  }

  // ----- Reputation -----------------------------------------------------------

  /** The number of slashes on record after one more instruction. */
  ghost function SlashesAfter(s: Accounts, ix: Instruction, owner: Pubkey, n: nat): nat {
    if Apply(s, ix).Aborted? then n
    else if ix.RegisterNode? && ix.owner == owner then 0
    else if ix.SlashNode? && ix.owner == owner then n + 1
    else n
  }

  /** Committed slashes of a node since its latest committed registration. */
  ghost function SlashesSince(s: Accounts, ixs: seq<Instruction>, owner: Pubkey): nat {
    if ixs == [] then 0 else
      SlashesAfter(Run(s, ixs[..|ixs| - 1]), ixs[|ixs| - 1], owner, SlashesSince(s, ixs[..|ixs| - 1], owner))
  }

  /** Reputation is a function of the slashes on record, and so is membership. */
  ghost predicate Standing(s: Accounts, owner: Pubkey, k: nat) {
    if owner in s.nodes then
      var n := s.nodes[owner];
      && n.reputation == 100 - 20 * k
      && (n.isInitialized <==> k < 5)
      && (n.isInitialized ==> n.stakeAmount >= MIN_STAKE)
      && (!n.isInitialized ==> n.stakeAmount == 0)
      && !n.locked
    else k == 0
  }

  lemma StandingStep(s: Accounts, ix: Instruction, owner: Pubkey, k: nat)
    requires Standing(s, owner, k)
    ensures Standing(Next(s, ix), owner, SlashesAfter(s, ix, owner, k))
  {
    hide Emitted;
  }

  /** In every reachable state reputation is 100 - 20 * (slashes since registration),
      a node is registered exactly while that is positive, its stake is at least the
      minimum until it is ejected and zero then, and the lock is free: so ejection
      happens at exactly the fifth slash. */
  lemma {:induction false} ReputationCountsSlashes(s: Accounts, ixs: seq<Instruction>, owner: Pubkey)
    requires Genesis(s)
    ensures Standing(Run(s, ixs), owner, SlashesSince(s, ixs, owner))
    decreases |ixs|
  {
    hide Next, SlashesAfter;
    if ixs != [] {
      ReputationCountsSlashes(s, ixs[..|ixs| - 1], owner);
      StandingStep(Run(s, ixs[..|ixs| - 1]), ixs[|ixs| - 1], owner, SlashesSince(s, ixs[..|ixs| - 1], owner));
    }
  }

  /** "Five slashes eject a node" does not always hold: the returned half stake is
      drawn from the escrow. A slash commits if and only if the administrator or the
      node's owner asks for it, the node is registered, and it is not the fifth since
      registration or the escrow still holds that half. */
  lemma SlashCommitsExactlyWhen(s: Accounts, ixs: seq<Instruction>, ix: Instruction)
    requires Genesis(s) && ix.SlashNode?
    ensures var t := Run(s, ixs);
            Apply(t, ix).Committed? <==>
            && (ix.authority == "Admins1111111111111111111111111111111111111" || ix.authority == ix.owner)
            && ix.owner in t.nodes && t.nodes[ix.owner].isInitialized
            && (SlashesSince(s, ixs, ix.owner) < 4 || t.nodes[ix.owner].stakeAmount / 2 <= Get(t.escrows, ix.owner))
  {
    ReputationCountsSlashes(s, ixs, ix.owner);
  }

  lemma RunSnoc(s: Accounts, ixs: seq<Instruction>, ix: Instruction, owner: Pubkey)
    ensures Run(s, ixs + [ix]) == Next(Run(s, ixs), ix)
    ensures SlashesSince(s, ixs + [ix], owner)
         == SlashesAfter(Run(s, ixs), ix, owner, SlashesSince(s, ixs, owner))
  {
    assert (ixs + [ix])[..|ixs|] == ixs;
  }

  /** Four slashes in a row leave a fresh registration at reputation 20. */
  lemma FourSlashes(s: Accounts, ixs: seq<Instruction>, owner: Pubkey)
    requires Genesis(s) && SlashesSince(s, ixs, owner) == 0 && owner in Run(s, ixs).nodes
    ensures var slash := SlashNode(ADMIN_KEY, owner);
            var after := ixs + [slash] + [slash] + [slash] + [slash];
            && SlashesSince(s, after, owner) == 4 && owner in Run(s, after).nodes
            && Run(s, after).escrows == Run(s, ixs).escrows
            && Run(s, after).nodes[owner].stakeAmount == Run(s, ixs).nodes[owner].stakeAmount
  {
    hide Run, SlashesSince;
    var slash := SlashNode(ADMIN_KEY, owner);
    ReputationCountsSlashes(s, ixs, owner);
    RunSnoc(s, ixs, slash, owner);
    RunSnoc(s, ixs + [slash], slash, owner);
    RunSnoc(s, ixs + [slash] + [slash], slash, owner);
    RunSnoc(s, ixs + [slash] + [slash] + [slash], slash, owner);
  }

  /** A run whose fifth slash fails: the node is paid its whole escrow for a batch,
      so nothing is left for the refund and it stays registered with reputation 20. */
  lemma FifthSlashCanFail()
    ensures exists s, ixs, owner ::
              && Genesis(s) && SlashesSince(s, ixs, owner) == 4
              && Apply(Run(s, ixs), SlashNode(ADMIN_KEY, owner)) == Aborted(TransferFailed)
  {
    hide Run, SlashesSince, Emitted;
    var s := Accounts(map[], map["node" := MIN_STAKE], map[], map[], None, map[], 0);
    var i0 := InitializeProtocol("admin", "mint", 255);
    var i1 := RegisterNode("node", "", MIN_STAKE, 0);
    var i2 := Settle("node", [], MIN_STAKE, 0, [], 0);
    var slash := SlashNode(ADMIN_KEY, "node");
    RunEmpty(s, "node");
    RunSnoc(s, [], i0, "node");
    RunSnoc(s, [] + [i0], i1, "node");
    RunSnoc(s, [] + [i0] + [i1], i2, "node");
    FourSlashes(s, [] + [i0] + [i1] + [i2], "node");
    var ixs := [] + [i0] + [i1] + [i2] + [slash] + [slash] + [slash] + [slash];
    ReputationCountsSlashes(s, ixs, "node");
    assert Get(Run(s, ixs).escrows, "node") == 0;
    assert Apply(Run(s, ixs), slash) == Aborted(TransferFailed);
  }

  lemma RunEmpty(s: Accounts, owner: Pubkey)
    ensures Run(s, []) == s && SlashesSince(s, [], owner) == 0
  {
  }
}
