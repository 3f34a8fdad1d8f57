/**
 The on-chain registry as a ledger of accounts, and its instructions as atomic
 steps: an instruction commits a new ledger or aborts and changes nothing
 (sns-program/programs/sns-program/src/lib.rs).
 */
module Ledger {
  import opened Common
  import opened MapSums
  import opened Emission
  import Bytes

  type Pubkey = string
  type Hash = Bytes.Bytes

  const ADMIN_KEY: Pubkey := "Admins1111111111111111111111111111111111111"
  const MIN_STAKE: nat := 100_000_000
  const MIN_PRIORITY_STAKE: nat := 1000 * 1_000_000_000
  const MAX_ENDPOINT: nat := 100

  datatype NodeAccount = NodeAccount(
    owner: Pubkey, endpoint: string, stakeAmount: u64, reputation: nat, registeredAt: int,
    requestsServed: u64, isInitialized: bool, locked: bool, lastReceiptNonce: u64)

  datatype BatchRecord = BatchRecord(
    node: Pubkey, merkleRoot: Hash, totalLamports: u64, receiptCount: u64, settledAt: int)

  datatype ProgramState = ProgramState(
    admin: Pubkey, solnetMint: Pubkey, mintAuthorityBump: nat, globalRequestCount: u64)

  /** All accounts the program reads or writes. Node and escrow accounts are
      derived from the owner's key, batch records from the batch id. */
  datatype Accounts = Accounts(
    nodes: map<Pubkey, NodeAccount>,
    wallets: map<Pubkey, nat>,
    escrows: map<Pubkey, nat>,
    batches: map<Hash, BatchRecord>,
    program: Option<ProgramState>,
    minted: map<Pubkey, nat>,
    supply: nat)

  datatype Error =
    | NodeAlreadyRegistered | InsufficientStake | Unauthorized | NodeNotFound | InvalidEndpoint
    | Overflow | Reentrancy | InsufficientEscrow | NodeSlashed
    | AccountConstraint  // an account is missing, or `init` finds it taken
    | TransferFailed     // the system or token program refuses a transfer
    | MintFailed         // the token program refuses to exceed a u64 supply
    | ArithmeticAbort    // `overflow-checks` stops plain arithmetic

  /** `Fund` is an ordinary transfer to an escrow address, which anyone may send. */
  datatype Instruction =
    | InitializeProtocol(admin: Pubkey, solnetMint: Pubkey, bump: nat)
    | RegisterNode(owner: Pubkey, endpoint: string, stake: u64, now: int)
    | Settle(owner: Pubkey, merkleRoot: Hash, lamports: u64, receipts: u64, batchId: Hash, now: int)
    | StakeForPriority(owner: Pubkey, amount: u64, tokenBalance: nat)
    | SlashNode(authority: Pubkey, owner: Pubkey)
    | Fund(sender: Pubkey, owner: Pubkey, amount: u64)

  datatype Outcome = Committed(after: Accounts) | Aborted(error: Error)

  /** A freshly allocated node account holds zeros. */
  const BLANK_NODE := NodeAccount("", "", 0, 0, 0, 0, false, false, 0)

  function NodeOrBlank(nodes: map<Pubkey, NodeAccount>, owner: Pubkey): NodeAccount {
    if owner in nodes then nodes[owner] else BLANK_NODE
  }

  function SaturatingSub(a: nat, b: nat): nat {
    if a < b then 0 else a - b
  }

  ghost function ApplyInit(s: Accounts, ix: Instruction): Outcome
    requires ix.InitializeProtocol?
  {
    if s.program.Some? then Aborted(AccountConstraint)
    else Committed(s.(program := Some(ProgramState(ix.admin, ix.solnetMint, ix.bump, 0))))
  }

  ghost function ApplyRegister(s: Accounts, ix: Instruction): Outcome
    requires ix.RegisterNode?
  {
    var node := NodeOrBlank(s.nodes, ix.owner);
    if |ix.endpoint| > MAX_ENDPOINT then Aborted(InvalidEndpoint)
    else if ix.stake < MIN_STAKE then Aborted(InsufficientStake)
    else if node.isInitialized then Aborted(NodeAlreadyRegistered)
    else if Get(s.wallets, ix.owner) < ix.stake then Aborted(TransferFailed)
    else Committed(s.(
      nodes := s.nodes[ix.owner := NodeAccount(ix.owner, ix.endpoint, ix.stake, 100, ix.now, 0,
                                               true, false, node.lastReceiptNonce)],
      wallets := Sub(s.wallets, ix.owner, ix.stake),
      escrows := Add(s.escrows, ix.owner, ix.stake)))
  }

  ghost function ApplySettle(s: Accounts, ix: Instruction): Outcome
    requires ix.Settle?
  {
    if ix.owner !in s.nodes || ix.batchId in s.batches || s.program.None? then Aborted(AccountConstraint)
    else
      var node, count := s.nodes[ix.owner], s.program.value.globalRequestCount;
      if node.reputation == 0 then Aborted(NodeSlashed)
      else if ix.lamports > Get(s.escrows, ix.owner) then Aborted(InsufficientEscrow)
      else if ix.receipts > 0 && count + ix.receipts > COUNT_LIMIT then Aborted(ArithmeticAbort)
      else if s.supply + Reward(count, ix.receipts) > MAX_U64 then Aborted(MintFailed)
      else if node.requestsServed + ix.receipts > MAX_U64 then Aborted(Overflow)
      else Committed(s.(
        nodes := s.nodes[ix.owner := node.(requestsServed := node.requestsServed + ix.receipts)],
        wallets := Add(s.wallets, ix.owner, ix.lamports),
        escrows := Sub(s.escrows, ix.owner, ix.lamports),
        batches := s.batches[ix.batchId :=
          BatchRecord(ix.owner, ix.merkleRoot, ix.lamports, ix.receipts, ix.now)],
        program := Some(s.program.value.(globalRequestCount := count + ix.receipts)),
        minted := Add(s.minted, ix.owner, Reward(count, ix.receipts)),
        supply := s.supply + Reward(count, ix.receipts)))
  }

  ghost function ApplyPriority(s: Accounts, ix: Instruction): Outcome
    requires ix.StakeForPriority?
  {
    if ix.owner !in s.nodes then Aborted(AccountConstraint)
    else if ix.amount < MIN_PRIORITY_STAKE then Aborted(InsufficientStake)
    else if !s.nodes[ix.owner].isInitialized then Aborted(NodeNotFound)
    else if ix.amount > ix.tokenBalance then Aborted(TransferFailed)
    else
      var node := s.nodes[ix.owner];
      if node.stakeAmount + ix.amount > MAX_U64 then Aborted(Overflow)
      else Committed(s.(nodes := s.nodes[ix.owner := node.(stakeAmount := node.stakeAmount + ix.amount)]))
  }

  ghost function ApplySlash(s: Accounts, ix: Instruction): Outcome
    requires ix.SlashNode?
  {
    if ix.owner !in s.nodes then Aborted(AccountConstraint)
    else
      var node := s.nodes[ix.owner];
      var reputation := SaturatingSub(node.reputation, 20);
      if ix.authority != ADMIN_KEY && ix.authority != ix.owner then Aborted(Unauthorized)
      else if !node.isInitialized then Aborted(NodeNotFound)
      else if node.locked then Aborted(Reentrancy)
      else if reputation >= 20 then Committed(s.(nodes := s.nodes[ix.owner := node.(reputation := reputation)]))
      else if node.stakeAmount / 2 > Get(s.escrows, ix.owner) then Aborted(TransferFailed)
      else Committed(s.(
        nodes := s.nodes[ix.owner := node.(reputation := reputation, isInitialized := false, stakeAmount := 0)],
        wallets := Add(s.wallets, ix.owner, node.stakeAmount / 2),
        escrows := Sub(s.escrows, ix.owner, node.stakeAmount / 2)))
  }

  ghost function ApplyFund(s: Accounts, ix: Instruction): Outcome
    requires ix.Fund?
  {
    if Get(s.wallets, ix.sender) < ix.amount then Aborted(TransferFailed)
    else Committed(s.(wallets := Sub(s.wallets, ix.sender, ix.amount), escrows := Add(s.escrows, ix.owner, ix.amount)))
  }

  ghost function Apply(s: Accounts, ix: Instruction): Outcome {
    match ix
    case InitializeProtocol(_, _, _) => ApplyInit(s, ix)
    case RegisterNode(_, _, _, _) => ApplyRegister(s, ix)
    case Settle(_, _, _, _, _, _) => ApplySettle(s, ix)
    case StakeForPriority(_, _, _) => ApplyPriority(s, ix)
    case SlashNode(_, _) => ApplySlash(s, ix)
    case Fund(_, _, _) => ApplyFund(s, ix)
  }

  /** The atomic step: an aborted transaction leaves every account as it was. */
  ghost function Next(s: Accounts, ix: Instruction): Accounts {
    match Apply(s, ix)
    case Committed(after) => after
    case Aborted(_) => s
  }

  ghost function Run(s: Accounts, ixs: seq<Instruction>): Accounts {
    if ixs == [] then s else Next(Run(s, ixs[..|ixs| - 1]), ixs[|ixs| - 1])
  }

  ghost function Count(s: Accounts): nat {
    if s.program.Some? then s.program.value.globalRequestCount else 0
  }

  ghost function ReceiptCounts(batches: map<Hash, BatchRecord>): map<Hash, nat> {
    map id | id in batches :: batches[id].receiptCount
  }
}
