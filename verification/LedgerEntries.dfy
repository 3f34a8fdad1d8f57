/**
 What each account holds in every run, key by key: wallets, reward tokens, node
 accounts, batch records and the program state as histories of the instructions
 that committed, and when each instruction commits or with which error it fails.
 */
module LedgerEntries {
  import opened Common
  import opened MapSums
  import opened Emission
  import opened Ledger
  import opened LedgerRuns

  // ----- Wallets and reward tokens ----------------------------------------------

  /** Lamports that `owner` has sent to escrows by plain transfers. */
  ghost function Sent(s: Accounts, ixs: seq<Instruction>, owner: Pubkey): nat {
    if ixs == [] then 0 else
      var before, ix := Run(s, ixs[..|ixs| - 1]), ixs[|ixs| - 1];
      Sent(s, ixs[..|ixs| - 1], owner) + StepSent(before, ix, owner)
  }

  ghost function StepSent(s: Accounts, ix: Instruction, owner: Pubkey): nat {
    if ix.Fund? && ix.sender == owner && Apply(s, ix).Committed? then ix.amount else 0
  }

  lemma WalletStep(s: Accounts, ix: Instruction, owner: Pubkey)
    ensures var f := StepFlows(s, ix, owner);
            Get(Next(s, ix).wallets, owner) + f.deposits + StepSent(s, ix, owner)
            == Get(s.wallets, owner) + f.payouts + f.refunds
  {
    hide Emitted;
  }

  /** Every wallet is its opening balance minus the stakes and fundings its owner sent,
      plus the settlement payouts and slash refunds out of the owner's own escrow. */
  lemma {:induction false} WalletBalances(s: Accounts, ixs: seq<Instruction>, owner: Pubkey)
    ensures var f := EscrowFlows(s, ixs, owner);
            Get(Run(s, ixs).wallets, owner) + f.deposits + Sent(s, ixs, owner)
            == Get(s.wallets, owner) + f.payouts + f.refunds
    decreases |ixs|
  {
    hide Next, StepFlows, StepSent;
    if ixs != [] {
      WalletBalances(s, ixs[..|ixs| - 1], owner);
      WalletStep(Run(s, ixs[..|ixs| - 1]), ixs[|ixs| - 1], owner);
    }
  }

  /** The emission over the requests that `owner` settled, each batch at its place in
      the global count. */
  ghost function Earned(s: Accounts, ixs: seq<Instruction>, owner: Pubkey): nat {
    if ixs == [] then 0 else
      Earned(s, ixs[..|ixs| - 1], owner) + StepEarned(Run(s, ixs[..|ixs| - 1]), ixs[|ixs| - 1], owner)
  }

  ghost function StepEarned(s: Accounts, ix: Instruction, owner: Pubkey): nat {
    if ix.Settle? && ix.owner == owner && Apply(s, ix).Committed? then
      EmittedMonotone(Count(s), Count(s) + ix.receipts);
      Emitted(Count(s) + ix.receipts) - Emitted(Count(s))
    else 0
  }

  lemma EarnedStep(s: Accounts, ix: Instruction, owner: Pubkey)
    ensures Get(Next(s, ix).minted, owner) == Get(s.minted, owner) + StepEarned(s, ix, owner)
  {
    hide Emitted;
  }

  /** Each owner holds the reward for its own batches and no other. */
  lemma {:induction false} TokensAreEarned(s: Accounts, ixs: seq<Instruction>, owner: Pubkey)
    ensures Get(Run(s, ixs).minted, owner) == Get(s.minted, owner) + Earned(s, ixs, owner)
    decreases |ixs|
  {
    hide Next, StepEarned;
    if ixs != [] {
      TokensAreEarned(s, ixs[..|ixs| - 1], owner);
      EarnedStep(Run(s, ixs[..|ixs| - 1]), ixs[|ixs| - 1], owner);
    }
  }

  // ----- Node accounts ----------------------------------------------------------

  /** A node's latest registration and what has happened since. */
  datatype Record =
    | Unknown
    | Joined(endpoint: string, deposit: nat, joinedAt: int, priority: nat, served: nat, slashes: nat)

  ghost function NextRecord(s: Accounts, ix: Instruction, owner: Pubkey, r: Record): Record {
    if Apply(s, ix).Aborted? || ix.InitializeProtocol? || ix.Fund? || ix.owner != owner then r
    else if ix.RegisterNode? then Joined(ix.endpoint, ix.stake, ix.now, 0, 0, 0)
    else if r.Unknown? then r
    else if ix.Settle? then r.(served := r.served + ix.receipts)
    else if ix.StakeForPriority? then r.(priority := r.priority + ix.amount)
    else r.(slashes := r.slashes + 1)
  }

  ghost function RecordOf(s: Accounts, ixs: seq<Instruction>, owner: Pubkey): Record {
    if ixs == [] then Unknown
    else NextRecord(Run(s, ixs[..|ixs| - 1]), ixs[|ixs| - 1], owner, RecordOf(s, ixs[..|ixs| - 1], owner))
  }

  predicate Registered(r: Record) {
    r.Joined? && r.slashes < 5
  }

  /** The account says what the record does: a node has one once it has registered, with
      the endpoint, time and stake of its latest registration and what came on top. */
  ghost predicate AccountTells(s: Accounts, owner: Pubkey, r: Record) {
    && (owner in s.nodes <==> r.Joined?)
    && (r.Joined? ==>
          var n := s.nodes[owner];
          && r.slashes <= 5
          && n.owner == owner && n.endpoint == r.endpoint && n.registeredAt == r.joinedAt
          && n.stakeAmount == (if r.slashes < 5 then Stake(r) else 0)
          && n.reputation == 100 - 20 * r.slashes && (n.isInitialized <==> r.slashes < 5)
          && n.requestsServed == r.served
          && !n.locked && n.lastReceiptNonce == 0)
  }

  /** Deposited at registration and added since. */
  function Stake(r: Record): nat {
    if r.Joined? then r.deposit + r.priority else 0
  }

  lemma AccountStep(s: Accounts, ix: Instruction, owner: Pubkey, r: Record)
    requires AccountTells(s, owner, r)
    ensures AccountTells(Next(s, ix), owner, NextRecord(s, ix, owner, r))
  {
    hide Emitted;
  }

  /** Every node account, field by field, in every run: stake, reputation, requests
      served and membership follow from what committed since the latest registration. */
  lemma {:induction false} AccountsTellTheirHistory(s: Accounts, ixs: seq<Instruction>, owner: Pubkey)
    requires Genesis(s)
    ensures AccountTells(Run(s, ixs), owner, RecordOf(s, ixs, owner))
    decreases |ixs|
  {
    hide Next, NextRecord;
    if ixs != [] {
      var n := |ixs| - 1;
      AccountsTellTheirHistory(s, ixs[..n], owner);
      AccountStep(Run(s, ixs[..n]), ixs[n], owner, RecordOf(s, ixs[..n], owner));
    }
  }

  // ----- Batch records and the program state ---------------------------------------

  /** The settlement at position `i` committed, and the record is its own. */
  ghost predicate RecordedAt(s: Accounts, ixs: seq<Instruction>, i: nat, id: Hash, b: BatchRecord) {
    && i < |ixs| && ixs[i].Settle? && ixs[i].batchId == id && Apply(Run(s, ixs[..i]), ixs[i]).Committed?
    && b.node == ixs[i].owner && b.merkleRoot == ixs[i].merkleRoot && b.totalLamports == ixs[i].lamports
    && b.receiptCount == ixs[i].receipts && b.settledAt == ixs[i].now
  }

  lemma RecordStep(s: Accounts, ix: Instruction, id: Hash)
    requires id in Next(s, ix).batches && id !in s.batches
    ensures ix.Settle? && ix.batchId == id && Apply(s, ix).Committed?
    ensures var b := Next(s, ix).batches[id];
            && b.node == ix.owner && b.merkleRoot == ix.merkleRoot && b.totalLamports == ix.lamports
            && b.receiptCount == ix.receipts && b.settledAt == ix.now
  {
    hide Emitted;
  }

  /** A batch record holds what its settlement was called with. */
  lemma {:induction false} BatchRecordsTellTheirSettlement(s: Accounts, ixs: seq<Instruction>, id: Hash)
    requires Genesis(s) && id in Run(s, ixs).batches
    ensures exists i: nat :: RecordedAt(s, ixs, i, id, Run(s, ixs).batches[id])
    decreases |ixs|
  {
    hide Next;
    if ixs != [] {
      var n := |ixs| - 1;
      var before := Run(s, ixs[..n]);
      if id in before.batches {
        BatchRecordsTellTheirSettlement(s, ixs[..n], id);
        BatchStep(before, ixs[n], id);
        var i: nat :| RecordedAt(s, ixs[..n], i, id, before.batches[id]);
        assert ixs[..n][..i] == ixs[..i];
        assert RecordedAt(s, ixs, i, id, Run(s, ixs).batches[id]);
      } else {
        RecordStep(before, ixs[n], id);
        assert RecordedAt(s, ixs, n, id, Run(s, ixs).batches[id]);
      }
    }
  }

  /** The first attempt to initialise the protocol. */
  function FirstInit(ixs: seq<Instruction>): Option<Instruction> {
    if ixs == [] then None
    else if FirstInit(ixs[..|ixs| - 1]).Some? then FirstInit(ixs[..|ixs| - 1])
    else if ixs[|ixs| - 1].InitializeProtocol? then Some(ixs[|ixs| - 1])
    else None
  }

  ghost predicate StateTells(s: Accounts, init: Option<Instruction>) {
    match init
    case None => s.program.None?
    case Some(ix) =>
      && ix.InitializeProtocol? && s.program.Some?
      && var p := s.program.value;
         p.admin == ix.admin && p.solnetMint == ix.solnetMint && p.mintAuthorityBump == ix.bump
  }

  lemma StateStep(s: Accounts, ix: Instruction)
    ensures var t := Next(s, ix);
            if s.program.Some? then
              && t.program.Some?
              && t.program.value == s.program.value.(globalRequestCount := t.program.value.globalRequestCount)
            else if ix.InitializeProtocol? then StateTells(t, Some(ix)) && Count(t) == 0
            else t.program.None?
  {
    hide Emitted;
  }

  /** The first to initialise the protocol sets its administrator, mint and bump for good. */
  lemma {:induction false} FirstInitialisationStands(s: Accounts, ixs: seq<Instruction>)
    requires Genesis(s)
    ensures StateTells(Run(s, ixs), FirstInit(ixs))
    decreases |ixs|
  {
    hide Next;
    if ixs != [] {
      var n := |ixs| - 1;
      FirstInitialisationStands(s, ixs[..n]);
      StateStep(Run(s, ixs[..n]), ixs[n]);
    }
  }

  // ----- What commits, and what refuses the rest ----------------------------------

  /** In a reachable state, what becomes of an instruction, in terms of the history. */
  ghost predicate Fails(s: Accounts, ixs: seq<Instruction>, ix: Instruction, e: Error) {
    Apply(Run(s, ixs), ix) == Aborted(e)
  }

  lemma RegisterCommitsExactlyWhen(s: Accounts, ixs: seq<Instruction>, ix: Instruction)
    requires Genesis(s) && ix.RegisterNode?
    ensures var t, r := Run(s, ixs), RecordOf(s, ixs, ix.owner);
            && (Apply(t, ix).Committed? <==>
                  |ix.endpoint| <= 100 && ix.stake >= 100_000_000 && !Registered(r) && ix.stake <= Get(t.wallets, ix.owner))
            && (Fails(s, ixs, ix, InvalidEndpoint) <==> |ix.endpoint| > 100)
            && (Fails(s, ixs, ix, InsufficientStake) <==> |ix.endpoint| <= 100 && ix.stake < 100_000_000)
            && (Fails(s, ixs, ix, NodeAlreadyRegistered) <==>
                  |ix.endpoint| <= 100 && ix.stake >= 100_000_000 && Registered(r))
            && (Fails(s, ixs, ix, TransferFailed) <==>
                  |ix.endpoint| <= 100 && ix.stake >= 100_000_000 && !Registered(r) && ix.stake > Get(t.wallets, ix.owner))
  {
    hide Run, RecordOf;
    AccountsTellTheirHistory(s, ixs, ix.owner);
  }

  lemma PriorityCommitsExactlyWhen(s: Accounts, ixs: seq<Instruction>, ix: Instruction)
    requires Genesis(s) && ix.StakeForPriority?
    ensures var t, r := Run(s, ixs), RecordOf(s, ixs, ix.owner);
            var enough := ix.amount >= 1_000_000_000_000;
            && (Apply(t, ix).Committed? <==>
                  enough && Registered(r) && ix.amount <= ix.tokenBalance && Stake(r) + ix.amount <= MAX_U64)
            && (Fails(s, ixs, ix, AccountConstraint) <==> r.Unknown?)
            && (Fails(s, ixs, ix, InsufficientStake) <==> r.Joined? && !enough)
            && (Fails(s, ixs, ix, NodeNotFound) <==> r.Joined? && enough && !Registered(r))
            && (Fails(s, ixs, ix, TransferFailed) <==> enough && Registered(r) && ix.amount > ix.tokenBalance)
            && (Fails(s, ixs, ix, Overflow) <==>
                  enough && Registered(r) && ix.amount <= ix.tokenBalance
                  && Stake(r) + ix.amount > MAX_U64)
  {
    hide Run, RecordOf;
    AccountsTellTheirHistory(s, ixs, ix.owner);
  }

  lemma SlashFailsExactlyWhen(s: Accounts, ixs: seq<Instruction>, ix: Instruction)
    requires Genesis(s) && ix.SlashNode?
    ensures var t, r := Run(s, ixs), RecordOf(s, ixs, ix.owner);
            var allowed := ix.authority == ADMIN_KEY || ix.authority == ix.owner;
            && (Fails(s, ixs, ix, AccountConstraint) <==> r.Unknown?)
            && (Fails(s, ixs, ix, Unauthorized) <==> r.Joined? && !allowed)
            && (Fails(s, ixs, ix, NodeNotFound) <==> r.Joined? && allowed && !Registered(r))
            && (Fails(s, ixs, ix, TransferFailed) <==>
                  r.Joined? && allowed && r.slashes == 4 && Stake(r) / 2 > Get(t.escrows, ix.owner))
            && !Fails(s, ixs, ix, Reentrancy)
  {
    hide Run, RecordOf;
    AccountsTellTheirHistory(s, ixs, ix.owner);
  }

  lemma SettleFailsExactlyWhen(s: Accounts, ixs: seq<Instruction>, ix: Instruction)
    requires Genesis(s) && ix.Settle?
    ensures var t, r := Run(s, ixs), RecordOf(s, ixs, ix.owner);
            var given := r.Joined? && ix.batchId !in t.batches && FirstInit(ixs).Some?;
            var funded := given && Registered(r) && ix.lamports <= Get(t.escrows, ix.owner);
            var counted := funded && Count(t) + ix.receipts <= COUNT_LIMIT;
            && (Fails(s, ixs, ix, AccountConstraint) <==> !given)
            && (Fails(s, ixs, ix, NodeSlashed) <==> given && !Registered(r))
            && (Fails(s, ixs, ix, InsufficientEscrow) <==>
                  given && Registered(r) && ix.lamports > Get(t.escrows, ix.owner))
            && (Fails(s, ixs, ix, ArithmeticAbort) <==> funded && Count(t) + ix.receipts > COUNT_LIMIT)
            && (Fails(s, ixs, ix, MintFailed) <==> counted && s.supply + Emitted(Count(t) + ix.receipts) > MAX_U64)
            && (Apply(t, ix).Committed? <==> counted && s.supply + Emitted(Count(t) + ix.receipts) <= MAX_U64)
  {
    hide Run, RecordOf, Emitted, FirstInit;
    AccountsTellTheirHistory(s, ixs, ix.owner);
    FirstInitialisationStands(s, ixs);
    RunInv(s, ixs);
    EmittedMonotone(Count(Run(s, ixs)), Count(Run(s, ixs)) + ix.receipts);
  }

  /** Initialisation and plain transfers. */
  lemma OthersCommitExactlyWhen(s: Accounts, ixs: seq<Instruction>, ix: Instruction)
    requires Genesis(s) && (ix.InitializeProtocol? || ix.Fund?)
    ensures var t := Run(s, ixs);
            && (ix.InitializeProtocol? ==>
                  && (Apply(t, ix).Committed? <==> FirstInit(ixs).None?)
                  && (Fails(s, ixs, ix, AccountConstraint) <==> FirstInit(ixs).Some?))
            && (ix.Fund? ==>
                  && (Apply(t, ix).Committed? <==> ix.amount <= Get(t.wallets, ix.sender))
                  && (Fails(s, ixs, ix, TransferFailed) <==> ix.amount > Get(t.wallets, ix.sender)))
  {
    hide Run, FirstInit;
    FirstInitialisationStands(s, ixs);
  }
}
