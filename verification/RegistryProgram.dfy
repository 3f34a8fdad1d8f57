/**
 The instruction handlers, changing account fields in the order the program does
 (sns-program/programs/sns-program/src/lib.rs:11-243), each proved to be the
 atomic step of `Ledger.Apply`.
 */
module RegistryProgram {
  import opened Common
  import opened MapSums
  import opened Emission
  import opened Ledger

  datatype TxResult = Ok | Err(error: Error)

  class Program {
    var nodes: map<Pubkey, NodeAccount>
    var wallets: map<Pubkey, nat>
    var escrows: map<Pubkey, nat>
    var batches: map<Hash, BatchRecord>
    var program: Option<ProgramState>
    var minted: map<Pubkey, nat>
    var supply: nat

    ghost function State(): Accounts
      reads this
    {
      Accounts(nodes, wallets, escrows, batches, program, minted, supply)
    }

    /** The transaction that carried out `ix` ended as the atomic step says. */
    twostate predicate Performed(ix: Instruction, result: TxResult)
      reads this
    {
      && State() == Next(old(State()), ix)
      && match Apply(old(State()), ix)
         case Committed(_) => result == Ok
         case Aborted(e) => result == Err(e)
    }

    constructor (wallets: map<Pubkey, nat>, escrows: map<Pubkey, nat>, supply: nat)
      ensures State() == Accounts(map[], wallets, escrows, map[], None, map[], supply)
    {
      this.nodes, this.batches, this.program, this.minted := map[], map[], None, map[];
      this.wallets, this.escrows, this.supply := wallets, escrows, supply;
    }

    /** The system program's transfer, refused when the sender is short. */
    method TransferToEscrow(sender: Pubkey, owner: Pubkey, amount: nat) returns (ok: bool)
      modifies this`wallets, this`escrows
      ensures ok <==> amount <= Get(old(wallets), sender)
      ensures ok ==> wallets == Sub(old(wallets), sender, amount) && escrows == Add(old(escrows), owner, amount)
      ensures !ok ==> wallets == old(wallets) && escrows == old(escrows)
    {
      ok := amount <= Get(wallets, sender);
      if ok {
        wallets := Sub(wallets, sender, amount);
        escrows := Add(escrows, owner, amount);
      }
    }

    method TransferFromEscrow(owner: Pubkey, amount: nat) returns (ok: bool)
      modifies this`wallets, this`escrows
      ensures ok <==> amount <= Get(old(escrows), owner)
      ensures ok ==> wallets == Add(old(wallets), owner, amount) && escrows == Sub(old(escrows), owner, amount)
      ensures !ok ==> wallets == old(wallets) && escrows == old(escrows)
    {
      ok := amount <= Get(escrows, owner);
      if ok {
        escrows := Sub(escrows, owner, amount);
        wallets := Add(wallets, owner, amount);
      }
    }

    method InitializeProtocol(admin: Pubkey, solnetMint: Pubkey, bump: nat) returns (result: TxResult)
      modifies this
      ensures Performed(Instruction.InitializeProtocol(admin, solnetMint, bump), result)
    {
      if program.Some? {
        return Err(AccountConstraint);
      }
      program := Some(ProgramState(admin, solnetMint, bump, 0));
      return Ok;
    }

    method RegisterNode(owner: Pubkey, endpoint: string, stake: u64, now: int) returns (result: TxResult)
      modifies this
      ensures Performed(Instruction.RegisterNode(owner, endpoint, stake, now), result)
    {
      var node := NodeOrBlank(nodes, owner);
      if |endpoint| > MAX_ENDPOINT {
        return Err(InvalidEndpoint);
      }
      if stake < MIN_STAKE {
        return Err(InsufficientStake);
      }
      if node.isInitialized {
        return Err(NodeAlreadyRegistered);
      }
      node := node.(owner := owner, endpoint := endpoint, stakeAmount := stake, reputation := 100,
                    registeredAt := now, requestsServed := 0, isInitialized := true, locked := false);
      var ok := TransferToEscrow(owner, owner, stake);
      if !ok {
        return Err(TransferFailed);
      }
      nodes := nodes[owner := node];
      return Ok;
    }

    method SettleCompressedBatch(
      owner: Pubkey, merkleRoot: Hash, totalLamports: u64, receiptCount: u64, batchId: Hash, now: int)
      returns (result: TxResult)
      modifies this
      ensures Performed(Settle(owner, merkleRoot, totalLamports, receiptCount, batchId, now), result)
    {
      hide Emitted, Reward, Get, Add, Sub;
      if owner !in nodes || batchId in batches || program.None? {
        return Err(AccountConstraint);
      }
      var node := nodes[owner];
      if node.reputation == 0 {
        return Err(NodeSlashed);
      }
      if totalLamports > Get(escrows, owner) {
        return Err(InsufficientEscrow);
      }
      var state := program.value;
      var reward, _ := SettleRewards(state.globalRequestCount, receiptCount);
      if reward.Stopped? {
        return Err(if reward.error.CheckedOverflow? then Overflow else ArithmeticAbort);
      }
      if supply + reward.total > MAX_U64 {
        return Err(MintFailed);
      }
      if node.requestsServed + receiptCount > MAX_U64 {
        return Err(Overflow);
      }
      // Nothing can fail any more, so the writes made on the way commit here.
      var _ := TransferFromEscrow(owner, totalLamports);
      program := Some(state.(globalRequestCount := reward.newCount));
      minted := Add(minted, owner, reward.total);
      supply := supply + reward.total;
      batches := batches[batchId := BatchRecord(owner, merkleRoot, totalLamports, receiptCount, now)];
      nodes := nodes[owner := node.(requestsServed := node.requestsServed + receiptCount)];
      return Ok;
    }

    method StakeForPriority(owner: Pubkey, amount: u64, tokenBalance: nat) returns (result: TxResult)
      modifies this
      ensures Performed(Instruction.StakeForPriority(owner, amount, tokenBalance), result)
    {
      if owner !in nodes {
        return Err(AccountConstraint);
      }
      if amount < MIN_PRIORITY_STAKE {
        return Err(InsufficientStake);
      }
      var node := nodes[owner];
      if !node.isInitialized {
        return Err(NodeNotFound);
      }
      if amount > tokenBalance {
        return Err(TransferFailed);
      }
      if node.stakeAmount + amount > MAX_U64 {
        return Err(Overflow);
      }
      nodes := nodes[owner := node.(stakeAmount := node.stakeAmount + amount)];
      return Ok;
    }

    method SlashNode(authority: Pubkey, owner: Pubkey) returns (result: TxResult)
      modifies this
      ensures Performed(Instruction.SlashNode(authority, owner), result)
    {
      if owner !in nodes {
        return Err(AccountConstraint);
      }
      var node := nodes[owner];
      if authority != ADMIN_KEY && authority != owner {
        return Err(Unauthorized);
      }
      if !node.isInitialized {
        return Err(NodeNotFound);
      }
      if node.locked {
        return Err(Reentrancy);
      }
      node := node.(locked := true);
      node := node.(reputation := SaturatingSub(node.reputation, 20));
      if node.reputation < 20 {
        var refund := node.stakeAmount / 2;
        node := node.(isInitialized := false, stakeAmount := 0);
        if refund > 0 {
          var ok := TransferFromEscrow(owner, refund);
          if !ok {
            return Err(TransferFailed);
          }
        }
      }
      node := node.(locked := false);
      nodes := nodes[owner := node];
      return Ok;
    }
  }
}
