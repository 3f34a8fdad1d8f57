/**
 Issuance when the advanced counter is not written back: `program_state` carries no
 `mut` in `SettleCompressedBatch` (sns-program/programs/sns-program/src/lib.rs:320-321),
 so every settlement pays from a count of zero. When this still issues what the
 halving schedule says, and what it issues otherwise.
 */
module LedgerAsWritten {
  import opened Common
  import opened MapSums
  import opened Emission
  import opened Ledger
  import opened LedgerRuns

  // ----- Paying each part from the start of the schedule -------------------------

  lemma {:induction false} ShrDecreases(x: nat, k: nat)
    ensures Shr(x, k + 1) <= Shr(x, k) && Shr(x, k + 1) <= x / 2
  {
    if k > 0 {
      ShrDecreases(x / 2, k - 1);
    }
  }

  lemma {:induction false} EraRewardDecreases(e: nat, later: nat)
    requires e <= later
    ensures EraReward(later) <= EraReward(e)
    ensures e < later ==> EraReward(later) <= INITIAL_REWARD / 2 < EraReward(0)
    decreases later
  {
    assert EraReward(0) == INITIAL_REWARD;
    if e < later {
      EraRewardDecreases(e, later - 1);
      ShrDecreases(INITIAL_REWARD, later - 1);
    }
  }

  lemma EmittedNext(n: nat)
    ensures Emitted(n + 1) == Emitted(n) + EraReward(n / HALVING_INTERVAL)
  {
  }

  /** The next request of either part, paid from the start or in sequence. */
  lemma NextReward(a: nat, b: nat)
    ensures EraReward((a + b) / HALVING_INTERVAL) <= EraReward(b / HALVING_INTERVAL)
    ensures b < HALVING_INTERVAL <= a + b ==>
              EraReward((a + b) / HALVING_INTERVAL) < EraReward(b / HALVING_INTERVAL)
    ensures a + b < HALVING_INTERVAL || a == 0 ==>
              EraReward((a + b) / HALVING_INTERVAL) == EraReward(b / HALVING_INTERVAL)
  {
    hide EraReward;
    EraRewardDecreases(b / HALVING_INTERVAL, (a + b) / HALVING_INTERVAL);
  }

  /** Two parts both paid from the start come to at least what they would in
      sequence, and to as much only if one is empty or both fit in the first era. */
  lemma {:induction false} PayingFromTheStart(a: nat, b: nat)
    ensures Emitted(a) + Emitted(b) >= Emitted(a + b)
    ensures Emitted(a) + Emitted(b) == Emitted(a + b) <==> a == 0 || b == 0 || a + b <= HALVING_INTERVAL
    decreases b
  {
    hide EraReward, Emitted;
    if b == 0 {
      NothingEmittedYet();
    } else {
      PayingFromTheStart(a, b - 1);
      EmittedNext(b - 1);
      EmittedNext(a + b - 1);
      NextReward(a, b - 1);
      assert a + (b - 1) == a + b - 1;
    }
  }

  ghost function EmittedEach<K(!new)>(counts: map<K, nat>): map<K, nat> {
    map k | k in counts :: Emitted(counts[k])
  }

  function Positive<K>(counts: map<K, nat>): set<K> {
    set k | k in counts && counts[k] > 0
  }

  lemma {:induction false} TotalZero<K(!new)>(counts: map<K, nat>)
    ensures Total(counts) == 0 <==> Positive(counts) == {}
    decreases |counts|
  {
    if counts != map[] {
      var k :| k in counts;
      TotalRemove(counts, k);
      TotalZero(counts - {k});
      assert Positive(counts - {k}) == Positive(counts) - {k};
    }
  }

  /** The same for any number of parts. */
  lemma {:induction false} PayingEachFromTheStart<K(!new)>(counts: map<K, nat>)
    ensures Total(EmittedEach(counts)) >= Emitted(Total(counts))
    ensures Total(EmittedEach(counts)) == Emitted(Total(counts)) <==>
            |Positive(counts)| <= 1 || Total(counts) <= HALVING_INTERVAL
    decreases |counts|
  {
    hide Emitted;
    if counts == map[] {
      NothingEmittedYet();
    } else {
      var k :| k in counts;
      var rest := counts - {k};
      TotalRemove(counts, k);
      TotalRemove(EmittedEach(counts), k);
      assert EmittedEach(counts) - {k} == EmittedEach(rest);
      PayingEachFromTheStart(rest);
      PayingFromTheStart(counts[k], Total(rest));
      TotalZero(rest);
      assert Positive(rest) == Positive(counts) - {k};
      if counts[k] > 0 {
        assert Positive(counts) == Positive(rest) + {k};
      }
    }
  }

  // ----- The runs -----------------------------------------------------------------

  /** The atomic step without the write of the counter. */
  ghost function NextAsWritten(s: Accounts, ix: Instruction): Accounts {
    var t := Next(s, ix);
    if ix.Settle? then t.(program := s.program) else t
  }

  ghost function RunAsWritten(s: Accounts, ixs: seq<Instruction>): Accounts {
    if ixs == [] then s else NextAsWritten(RunAsWritten(s, ixs[..|ixs| - 1]), ixs[|ixs| - 1])
  }

  /** Every batch was paid as if it were the first. */
  ghost predicate EachPaidFromZero(s: Accounts, genesisSupply: nat) {
    && Count(s) == 0
    && Total(s.minted) == Total(EmittedEach(ReceiptCounts(s.batches)))
    && s.supply == genesisSupply + Total(s.minted) <= MAX_U64
  }

  lemma AsWrittenStep(s: Accounts, ix: Instruction, genesisSupply: nat)
    requires EachPaidFromZero(s, genesisSupply)
    ensures EachPaidFromZero(NextAsWritten(s, ix), genesisSupply)
  {
    if ix.Settle? && Apply(s, ix).Committed? {
      SettlementPaysFromZero(s, ix, genesisSupply);
    } else {
      hide Emitted, Total, EmittedEach, ReceiptCounts, Apply;
      if Apply(s, ix).Committed? {
        OthersIssueNothing(s, ix);
      }
    }
  }

  lemma OthersIssueNothing(s: Accounts, ix: Instruction)
    requires !ix.Settle? && Apply(s, ix).Committed?
    ensures var t := Apply(s, ix).after;
            && t.batches == s.batches && t.minted == s.minted && t.supply == s.supply
            && (t.program == s.program || Count(t) == 0)
  {
    hide Emitted, Total;
  }

  lemma SettlementPaysFromZero(s: Accounts, ix: Instruction, genesisSupply: nat)
    requires EachPaidFromZero(s, genesisSupply) && ix.Settle? && Apply(s, ix).Committed?
    ensures EachPaidFromZero(NextAsWritten(s, ix), genesisSupply)
  {
    hide Emitted, Total;
    var t, reward := NextAsWritten(s, ix), Reward(0, ix.receipts);
    assert Apply(s, ix) == ApplySettle(s, ix);
    NothingEmittedYet();
    assert reward == Emitted(ix.receipts);
    TotalUpdate(s.minted, ix.owner, Get(s.minted, ix.owner) + reward);
    assert Total(t.minted) == Total(s.minted) + reward;
    var counts := ReceiptCounts(s.batches);
    assert ReceiptCounts(t.batches) == counts[ix.batchId := ix.receipts];
    OneMorePaid(counts, ix.batchId, ix.receipts);
  }

  lemma OneMorePaid(counts: map<Hash, nat>, id: Hash, n: nat)
    requires id !in counts
    ensures Total(EmittedEach(counts[id := n])) == Total(EmittedEach(counts)) + Emitted(n)
  {
    hide Emitted, Total;
    TotalUpdate(EmittedEach(counts), id, Emitted(n));
    assert EmittedEach(counts[id := n]) == EmittedEach(counts)[id := Emitted(n)];
  }

  lemma {:induction false} AsWrittenRun(s: Accounts, ixs: seq<Instruction>)
    requires Genesis(s)
    ensures EachPaidFromZero(RunAsWritten(s, ixs), s.supply)
    decreases |ixs|
  {
    hide NextAsWritten, EachPaidFromZero;
    if ixs == [] {
      AsWrittenGenesis(s);
    } else {
      AsWrittenRun(s, ixs[..|ixs| - 1]);
      AsWrittenStep(RunAsWritten(s, ixs[..|ixs| - 1]), ixs[|ixs| - 1], s.supply);
    }
  }

  lemma AsWrittenGenesis(s: Accounts)
    requires Genesis(s)
    ensures EachPaidFromZero(s, s.supply)
  {
    assert EmittedEach(ReceiptCounts(s.batches)) == map[];
  }

  /** Without the write the tokens issued are never fewer than the schedule gives
      for all receipts settled, and they are that many exactly when at most one
      settled batch held receipts or all of them fit in the first era. */
  lemma IssuanceFollowsScheduleExactlyWhen(s: Accounts, ixs: seq<Instruction>)
    requires Genesis(s)
    ensures var t := RunAsWritten(s, ixs);
            var counts := ReceiptCounts(t.batches);
            && Count(t) == 0 && t.supply - s.supply == Total(t.minted) >= Emitted(Total(counts))
            && (Total(t.minted) == Emitted(Total(counts)) <==>
                |Positive(counts)| <= 1 || Total(counts) <= HALVING_INTERVAL)
  {
    AsWrittenRun(s, ixs);
    PayingEachFromTheStart(ReceiptCounts(RunAsWritten(s, ixs).batches));
  }

  lemma RunAsWrittenSnoc(s: Accounts, ixs: seq<Instruction>, ix: Instruction)
    ensures RunAsWritten(s, ixs + [ix]) == NextAsWritten(RunAsWritten(s, ixs), ix)
    ensures RunAsWritten(s, []) == s
  {
    assert (ixs + [ix])[..|ixs|] == ixs;
  }

  const BATCH: nat := 60_000_000

  lemma TwoBatchesEmitted()
    ensures Emitted(BATCH) == 600_000_000_000_000_000
    ensures Emitted(2 * BATCH) == 1_100_000_000_000_000_000
  {
    hide Emitted;
    NothingEmittedYet();
    EmittedWithinEra(0, BATCH);
    EmittedWithinEra(0, HALVING_INTERVAL);
    EmittedWithinEra(HALVING_INTERVAL, 2 * BATCH - HALVING_INTERVAL);
    FirstRewards();
  }

  lemma FirstRewards()
    ensures EraReward(0) == 10_000_000_000 && EraReward(1) == 5_000_000_000
  {
    assert Shr(INITIAL_REWARD, 1) == Shr(5_000_000_000, 0);
  }

  /** A settlement of 60,000,000 receipts that asks for no lamports. */
  function BatchOf(owner: Pubkey, id: Hash): Instruction {
    Settle(owner, [], 0, BATCH, id, 0)
  }

  lemma BatchMints(s: Accounts, owner: Pubkey, id: Hash)
    requires Count(s) == 0 && s.program.Some? && owner in s.nodes && id !in s.batches
    requires s.nodes[owner].reputation > 0 && s.nodes[owner].requestsServed <= BATCH
    requires s.supply <= Emitted(BATCH)
    ensures var t := NextAsWritten(s, BatchOf(owner, id));
            && t.program == s.program && t.supply == s.supply + Emitted(BATCH)
            && Get(t.minted, owner) == Get(s.minted, owner) + Emitted(BATCH)
            && ReceiptCounts(t.batches) == ReceiptCounts(s.batches)[id := BATCH]
            && owner in t.nodes && t.nodes[owner].reputation == s.nodes[owner].reputation
            && t.nodes[owner].requestsServed == s.nodes[owner].requestsServed + BATCH
  {
    TwoBatchesEmitted();
    NothingEmittedYet();
    hide Emitted;
  }

  /** The protocol is set up and the node registered; no batch is settled yet. */
  ghost predicate Ready(t: Accounts, owner: Pubkey) {
    && Count(t) == 0 && t.program.Some? && t.batches == map[] && t.supply == 0
    && owner in t.nodes && t.nodes[owner].reputation > 0 && t.nodes[owner].requestsServed == 0
  }

  lemma Registers(s: Accounts, owner: Pubkey) returns (ixs: seq<Instruction>)
    requires Genesis(s) && s.supply == 0 && Get(s.wallets, owner) >= MIN_STAKE
    ensures Ready(RunAsWritten(s, ixs), owner)
  {
    hide RunAsWritten, Emitted;
    var init, register := InitializeProtocol("", "", 0), RegisterNode(owner, "", MIN_STAKE, 0);
    RunAsWrittenSnoc(s, [], init);
    RunAsWrittenSnoc(s, [] + [init], register);
    ixs := [] + [init] + [register];
  }

  lemma SettlesTwice(s: Accounts, ixs: seq<Instruction>, owner: Pubkey) returns (longer: seq<Instruction>)
    requires Ready(RunAsWritten(s, ixs), owner)
    ensures ReceiptCounts(RunAsWritten(s, longer).batches) == map[[0] := BATCH, [1] := BATCH]
    ensures RunAsWritten(s, longer).supply == 2 * Emitted(BATCH)
  {
    hide RunAsWritten, NextAsWritten, Emitted;
    var b0, b1 := BatchOf(owner, [0]), BatchOf(owner, [1]);
    var t := RunAsWritten(s, ixs);
    RunAsWrittenSnoc(s, ixs, b0);
    RunAsWrittenSnoc(s, ixs + [b0], b1);
    TwoBatchesEmitted();
    BatchMints(t, owner, [0]);
    var mid := NextAsWritten(t, b0);
    assert mid.batches.Keys == ReceiptCounts(mid.batches).Keys == {[0]};
    BatchMints(mid, owner, [1]);
    longer := ixs + [b0] + [b1];
  }

  /** A run that issues too much: two batches of 60,000,000 receipts mint 1.2 * 10^18
      units where the schedule gives 1.1 * 10^18. */
  lemma OverIssuanceHappens()
    ensures exists s, ixs ::
              && Genesis(s)
              && Total(ReceiptCounts(RunAsWritten(s, ixs).batches)) == 120_000_000
              && Total(RunAsWritten(s, ixs).minted) == 1_200_000_000_000_000_000
              && Emitted(120_000_000) == 1_100_000_000_000_000_000
  {
    hide RunAsWritten, Emitted, Total;
    var s := Accounts(map[], map["node" := MIN_STAKE], map[], map[], None, map[], 0);
    var ixs := Registers(s, "node");
    ixs := SettlesTwice(s, ixs, "node");
    IssuanceFollowsScheduleExactlyWhen(s, ixs);
    TwoBatchesEmitted();
    TotalOfTwo([0], [1], BATCH);
    assert Total(RunAsWritten(s, ixs).minted) == 1_200_000_000_000_000_000;
  }

  lemma TotalOfTwo(a: Hash, b: Hash, n: nat)
    requires a != b
    ensures Total(map[a := n, b := n]) == 2 * n
  {
    var m := map[a := n, b := n];
    TotalRemove(m, a);
    TotalRemove(m - {a}, b);
    assert m - {a} - {b} == map[];
  }
}
