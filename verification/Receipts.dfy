/**
 Receipt batches: the leaf encoding, what a compressed batch commits to, and the
 life of receipts between memory and disk (sns-daemon/src/zk_payments.rs).
 */
module Receipts {
  import opened Bytes
  import opened Common
  import opened Merkle

  /** Text fields are held as their UTF-8 bytes. */
  datatype Receipt = Receipt(
    clientIpHash: Bytes, amountLamports: u64, rpcMethod: Bytes, timestamp: u64, nonce: Bytes, nodeSignature: Bytes)

  datatype CompressedBatch = CompressedBatch(
    batchId: string, merkleRoot: string, totalLamports: u64, receiptCount: nat, compressedAt: nat)

  /** The fields a leaf is made from; the method and the signature are not among them. */
  datatype Committed = Committed(clientIpHash: Bytes, amountLamports: u64, nonce: Bytes, timestamp: u64)

  function Commit(r: Receipt): Committed {
    Committed(r.clientIpHash, r.amountLamports, r.nonce, r.timestamp)
  }

  function CommitAll(rs: seq<Receipt>): seq<Committed> {
    if rs == [] then [] else [Commit(rs[0])] + CommitAll(rs[1..])
  }

  /** The bytes hashed into a leaf, one after the other without separators. */
  function Encode(r: Receipt): Bytes {
    r.clientIpHash + LittleEndian(r.amountLamports, 8) + r.nonce + LittleEndian(r.timestamp, 8)
  }

  function Encodings(rs: seq<Receipt>): (es: seq<Bytes>)
    ensures |es| == |rs|
    ensures forall i :: 0 <= i < |rs| ==> es[i] == Encode(rs[i])
  {
    seq(|rs|, i requires 0 <= i < |rs| => Encode(rs[i]))
  }

  function Leaves(h: HashFn, rs: seq<Receipt>): seq<Digest> {
    HashAll(h, Encodings(rs))
  }

  function TotalLamports(rs: seq<Receipt>): nat {
    if rs == [] then 0 else rs[0].amountLamports + TotalLamports(rs[1..])
  }

  /** `compress`; `None` is the abort of an overflowing u64 sum. */
  function CompressOf(h: HashFn, batchId: string, rs: seq<Receipt>, now: nat): Option<CompressedBatch> {
    var total := TotalLamports(rs);
    if total > MAX_U64 then None
    else Some(CompressedBatch(batchId, HexEncode(Root(h, Leaves(h, rs))), total, |rs|, now))
  }

  // ----- Totals and layout ------------------------------------------------------

  /** The total is the sum of the amounts. */
  lemma {:induction false} TotalIsAdditive(a: seq<Receipt>, b: seq<Receipt>)
    ensures TotalLamports([]) == 0
    ensures forall r :: TotalLamports([r]) == r.amountLamports
    ensures TotalLamports(a + b) == TotalLamports(a) + TotalLamports(b)
    decreases |a|
  {
    if a == [] {
      assert a + b == b;
    } else {
      TotalIsAdditive(a[1..], b);
      assert (a + b)[1..] == a[1..] + b;
    }
  }

  /** The committed fields in order: IP hash, amount, nonce, timestamp, the integers as
      eight bytes each. */
  lemma EncodingLayout(r: Receipt)
    ensures var e, i, n := Encode(r), |r.clientIpHash|, |r.nonce|;
            && |e| == i + 8 + n + 8
            && e[..i] == r.clientIpHash && e[i..i + 8] == LittleEndian(r.amountLamports, 8)
            && e[i + 8..i + 8 + n] == r.nonce && e[i + 8 + n..] == LittleEndian(r.timestamp, 8)
  {
  }

  /** What a compressed batch says, field by field. */
  lemma BatchTells(h: HashFn, batchId: string, rs: seq<Receipt>, now: nat)
    ensures var b := CompressOf(h, batchId, rs, now);
            && (b.None? <==> TotalLamports(rs) > 0xFFFF_FFFF_FFFF_FFFF)
            && (b.Some? ==>
                  && b.value.batchId == batchId && b.value.receiptCount == |rs| && b.value.compressedAt == now
                  && b.value.totalLamports == TotalLamports(rs)
                  && HexDecode(b.value.merkleRoot) == Some(Root(h, Leaves(h, rs))))
    ensures |Leaves(h, rs)| == |rs| && forall i :: 0 <= i < |rs| ==> Leaves(h, rs)[i] == h(Encode(rs[i]))
  {
    HexDecodeEncode(Root(h, Leaves(h, rs)));
  }

  // ----- Binding --------------------------------------------------------------

  lemma U64Fits(n: u64)
    ensures n < Pow256(8)
  {
    assert Pow256(8) == 0x1_0000_0000_0000_0000;
  }

  lemma SplitAt(a: Bytes, b: Bytes, c: Bytes, d: Bytes)
    requires a + b == c + d && |a| == |c|
    ensures a == c && b == d
  {
    assert a == (a + b)[..|a|] && c == (c + d)[..|c|];
    assert b == (a + b)[|a|..] && d == (c + d)[|c|..];
  }

  /** The encoding is not injective, and this is exactly where it fails: receipts
      that encode alike agree on everything committed if and only if their IP
      hashes have one length. */
  lemma EncodingBindsExactlyWhen(r: Receipt, s: Receipt)
    requires Encode(r) == Encode(s)
    ensures Commit(r) == Commit(s) <==> |r.clientIpHash| == |s.clientIpHash|
  {
    if |r.clientIpHash| == |s.clientIpHash| {
      var a, b := LittleEndian(r.amountLamports, 8), LittleEndian(s.amountLamports, 8);
      var t, u := LittleEndian(r.timestamp, 8), LittleEndian(s.timestamp, 8);
      assert |r.nonce| == |s.nonce|;
      SplitAt(r.clientIpHash + a + r.nonce, t, s.clientIpHash + b + s.nonce, u);
      SplitAt(r.clientIpHash + a, r.nonce, s.clientIpHash + b, s.nonce);
      SplitAt(r.clientIpHash, a, s.clientIpHash, b);
      U64Fits(r.amountLamports);
      U64Fits(s.amountLamports);
      U64Fits(r.timestamp);
      U64Fits(s.timestamp);
      LittleEndianInjective(r.amountLamports, s.amountLamports, 8);
      LittleEndianInjective(r.timestamp, s.timestamp, 8);
    }
  }

  /** Two receipts that differ in what is committed and still encode alike. */
  lemma EncodingIsAmbiguous()
    ensures exists r, s :: Encode(r) == Encode(s) && Commit(r) != Commit(s)
  {
    var r := Receipt([], 0, [], 0, [0], []);
    var s := Receipt([0], 0, [], 0, [], []);
    assert Encode(r) == LittleEndian(0, 8) + [0] + LittleEndian(0, 8);
    assert Encode(s) == [0] + LittleEndian(0, 8) + LittleEndian(0, 8);
    ZerosCommute();
    assert Encode(r) == Encode(s) && Commit(r) != Commit(s);
  }

  lemma ZerosCommute()
    ensures LittleEndian(0, 8) + [0] == [0] + LittleEndian(0, 8)
  {
    assert forall k :: 0 <= k < 8 ==> LittleEndian(0, 8)[k] == 0;
  }

  ghost predicate OneIpHashLength(rs: seq<Receipt>, ss: seq<Receipt>) {
    |rs| == |ss| && forall i :: 0 <= i < |rs| ==> |rs[i].clientIpHash| == |ss[i].clientIpHash|
  }

  lemma {:induction false} CommitAllEqual(rs: seq<Receipt>, ss: seq<Receipt>)
    requires |rs| == |ss| && forall i :: 0 <= i < |rs| ==> Commit(rs[i]) == Commit(ss[i])
    ensures CommitAll(rs) == CommitAll(ss) && TotalLamports(rs) == TotalLamports(ss)
  {
    if rs != [] {
      assert Commit(rs[0]).amountLamports == Commit(ss[0]).amountLamports;
      CommitAllEqual(rs[1..], ss[1..]);
    }
  }

  /** Looks for two inputs with one digest among the leaves first, then in the tree. */
  function FindBatchCollision(h: HashFn, rs: seq<Receipt>, ss: seq<Receipt>): Option<(Bytes, Bytes)> {
    var ls, ms, es, fs := Leaves(h, rs), Leaves(h, ss), Encodings(rs), Encodings(ss);
    if |rs| != |ss| then None
    else if ls != ms then FindCollision(h, ls, ms)
    else if es == fs then None
    else
      var i := FirstDifference(es, fs);
      Some((es[i], fs[i]))
  }

  lemma HexInjective(a: Bytes, b: Bytes)
    requires HexEncode(a) == HexEncode(b)
    ensures a == b
  {
    HexDecodeEncode(a);
    HexDecodeEncode(b);
  }

  /** The commitment binds: two batches with the same root and receipt count, whose
      IP hashes have one length, hold the same receipts and the same total, or the
      search exhibits two different byte strings with the same SHA-256 digest. */
  lemma CompressedBatchBinds(h: HashFn, rs: seq<Receipt>, ss: seq<Receipt>,
                             idR: string, idS: string, nowR: nat, nowS: nat)
    requires CompressOf(h, idR, rs, nowR).Some? && CompressOf(h, idS, ss, nowS).Some?
    requires var a, b := CompressOf(h, idR, rs, nowR).value, CompressOf(h, idS, ss, nowS).value;
             a.merkleRoot == b.merkleRoot && a.receiptCount == b.receiptCount
    requires OneIpHashLength(rs, ss)
    ensures Found(h, FindBatchCollision(h, rs, ss))
         || (CommitAll(rs) == CommitAll(ss)
             && CompressOf(h, idR, rs, nowR).value.totalLamports == CompressOf(h, idS, ss, nowS).value.totalLamports)
  {
    var ls, ms, es, fs := Leaves(h, rs), Leaves(h, ss), Encodings(rs), Encodings(ss);
    HexInjective(Root(h, ls), Root(h, ms));
    RootBinds(h, ls, ms);
    if ls == ms && es != fs {
      var i := FirstDifference(es, fs);
      assert ls[i] == h(es[i]) && ms[i] == h(fs[i]);
    } else if ls == ms {
      forall i | 0 <= i < |rs| ensures Commit(rs[i]) == Commit(ss[i]) {
        assert es[i] == fs[i];
        EncodingBindsExactlyWhen(rs[i], ss[i]);
      }
      CommitAllEqual(rs, ss);
    }
  }

  /** And nothing more is bound: method and signature can change under one root. */
  lemma MethodAndSignatureUncommitted(h: HashFn, rs: seq<Receipt>, ss: seq<Receipt>)
    requires |rs| == |ss| && forall i :: 0 <= i < |rs| ==> Commit(rs[i]) == Commit(ss[i])
    ensures Root(h, Leaves(h, rs)) == Root(h, Leaves(h, ss))
  {
    forall i | 0 <= i < |rs| ensures Encode(rs[i]) == Encode(ss[i]) {
      assert Commit(rs[i]) == Commit(ss[i]);
    }
    assert Encodings(rs) == Encodings(ss);
  }

  // ----- Memory and disk ------------------------------------------------------

  /** The pending receipts, their batch id, and the batch files written so far. */
  datatype Store = Store(receipts: seq<Receipt>, batchId: string, files: map<string, seq<Receipt>>)

  /** `dirOk` and `writeOk` say whether the two file operations succeed; a failed
      write may still leave the file behind, cut short at `torn` receipts. */
  datatype Event =
    | AddReceipt(receipt: Receipt)
    | PersistAndClear(dirOk: bool, writeOk: bool, torn: nat, nextId: string)

  function Persist(s: Store, e: Event): Store
    requires e.PersistAndClear?
  {
    if TotalLamports(s.receipts) > MAX_U64 || !e.dirOk then s
    else if !e.writeOk then
      s.(files := s.files[s.batchId := s.receipts[..if e.torn < |s.receipts| then e.torn else |s.receipts|]])
    else Store([], e.nextId, s.files[s.batchId := s.receipts])
  }

  function StoreNext(s: Store, e: Event): Store {
    if e.AddReceipt? then s.(receipts := s.receipts + [e.receipt]) else Persist(s, e)
  }

  function StoreRun(s: Store, es: seq<Event>): Store {
    if es == [] then s else StoreNext(StoreRun(s, es[..|es| - 1]), es[|es| - 1])
  }

  /** Whether the event ends the current batch. */
  predicate Clears(s: Store, e: Event) {
    e.PersistAndClear? && e.dirOk && e.writeOk && TotalLamports(s.receipts) <= MAX_U64
  }

  /** Batch ids in the order their batches were closed. */
  function ClosedIds(s: Store, es: seq<Event>): seq<string> {
    if es == [] then [] else
      var before := StoreRun(s, es[..|es| - 1]);
      ClosedIds(s, es[..|es| - 1]) + if Clears(before, es[|es| - 1]) then [before.batchId] else []
  }

  function Added(es: seq<Event>): seq<Receipt> {
    if es == [] then [] else
      Added(es[..|es| - 1]) + if es[|es| - 1].AddReceipt? then [es[|es| - 1].receipt] else []
  }

  function Contents(files: map<string, seq<Receipt>>, ids: seq<string>): seq<Receipt> {
    if ids == [] then [] else
      Contents(files, ids[..|ids| - 1])
      + if ids[|ids| - 1] in files then files[ids[|ids| - 1]] else []
  }

  /** UUIDs: no batch id ever comes back. */
  ghost predicate FreshIds(s: Store, es: seq<Event>) {
    es != [] ==>
      && FreshIds(s, es[..|es| - 1])
      && (es[|es| - 1].PersistAndClear? ==>
            && es[|es| - 1].nextId !in ClosedIds(s, es[..|es| - 1])
            && es[|es| - 1].nextId != StoreRun(s, es[..|es| - 1]).batchId)
  }

  lemma {:induction false} ContentsFrame(files: map<string, seq<Receipt>>, ids: seq<string>, id: string, rs: seq<Receipt>)
    requires id !in ids
    ensures Contents(files[id := rs], ids) == Contents(files, ids)
    decreases |ids|
  {
    if ids != [] {
      ContentsFrame(files, ids[..|ids| - 1], id, rs);
    }
  }

  /** No receipt is lost or written twice: in every run, through failed writes and
      retries, the closed batch files in order followed by the pending receipts
      are exactly the receipts added. */
  lemma {:induction false} ReceiptsAreConserved(s: Store, es: seq<Event>)
    requires s.receipts == [] && FreshIds(s, es)
    ensures var t := StoreRun(s, es);
            && Contents(t.files, ClosedIds(s, es)) + t.receipts == Added(es)
            && t.batchId !in ClosedIds(s, es)
    decreases |es|
  {
    if es != [] {
      var n := |es| - 1;
      var before, ids := StoreRun(s, es[..n]), ClosedIds(s, es[..n]);
      ReceiptsAreConserved(s, es[..n]);
      var t := StoreRun(s, es);
      if es[n].PersistAndClear? {
        if before.batchId in t.files {
          ContentsFrame(before.files, ids, before.batchId, t.files[before.batchId]);
        }
        if Clears(before, es[n]) {
          assert (ids + [before.batchId])[..|ids|] == ids;
          assert Contents(t.files, ids + [before.batchId]) == Contents(before.files, ids) + before.receipts;
        } else {
          assert t.receipts == before.receipts && ClosedIds(s, es) == ids;
        }
      } else {
        assert ClosedIds(s, es) == ids && t.files == before.files;
        assert Added(es) == Contents(before.files, ids) + (before.receipts + [es[n].receipt]);
      }
    }
  }

  /** Amounts of all receipts added. */
  function AmountAdded(es: seq<Event>): nat {
    if es == [] then 0 else
      AmountAdded(es[..|es| - 1]) + if es[|es| - 1].AddReceipt? then es[|es| - 1].receipt.amountLamports else 0
  }

  /** Totals of the compressed batches returned as batches were closed. */
  ghost function AmountClaimed(h: HashFn, s: Store, es: seq<Event>): nat {
    if es == [] then 0 else
      var before := StoreRun(s, es[..|es| - 1]);
      AmountClaimed(h, s, es[..|es| - 1])
      + if Clears(before, es[|es| - 1]) then CompressOf(h, before.batchId, before.receipts, 0).value.totalLamports else 0
  }

  /** In every run, the totals claimed by the closed batches and the amounts pending
      make up all amounts added; a batch refuses to close exactly when what is pending
      does not fit a u64. */
  lemma {:induction false} AmountsAreConserved(h: HashFn, s: Store, es: seq<Event>)
    requires s.receipts == []
    ensures var t := StoreRun(s, es);
            && AmountClaimed(h, s, es) + TotalLamports(t.receipts) == AmountAdded(es)
            && (CompressOf(h, t.batchId, t.receipts, 0).None? <==>
                  AmountAdded(es) - AmountClaimed(h, s, es) > 0xFFFF_FFFF_FFFF_FFFF)
    decreases |es|
  {
    hide TotalLamports;
    TotalIsAdditive([], []);
    if es != [] {
      var n := |es| - 1;
      AmountsAreConserved(h, s, es[..n]);
      if es[n].AddReceipt? {
        TotalIsAdditive(StoreRun(s, es[..n]).receipts, [es[n].receipt]);
      }
    }
  }

  class ZkReceiptBatch {
    var receipts: seq<Receipt>
    var batchId: string
    var files: map<string, seq<Receipt>>

    ghost function State(): Store
      reads this
    {
      Store(receipts, batchId, files)
    }

    constructor (id: string)
      ensures State() == Store([], id, map[])
    {
      receipts, batchId, files := [], id, map[];
    }

    method AddReceipt(receipt: Receipt)
      modifies this`receipts
      ensures State() == StoreNext(old(State()), Event.AddReceipt(receipt))
      ensures receipts == old(receipts) + [receipt]
    {
      receipts := receipts + [receipt];
    }

    method Compress(h: HashFn, now: nat) returns (batch: Option<CompressedBatch>)
      ensures batch == CompressOf(h, batchId, receipts, now)
    {
      var total := TotalLamports(receipts);
      if total > MAX_U64 {
        return None;
      }
      var root, _ := ComputeMerkleRoot(h, Leaves(h, receipts));
      return Some(CompressedBatch(batchId, HexEncode(root), total, |receipts|, now));
    }

    /** The returned batch commits to exactly the file that was written. */
    method PersistAndClear(h: HashFn, now: nat, dirOk: bool, writeOk: bool, torn: nat, nextId: string)
      returns (batch: Option<CompressedBatch>)
      modifies this
      ensures State() == StoreNext(old(State()), Event.PersistAndClear(dirOk, writeOk, torn, nextId))
      ensures batch.Some? <==> dirOk && writeOk && TotalLamports(old(receipts)) <= MAX_U64
      ensures batch.Some? ==> receipts == [] && batchId == nextId && files == old(files)[old(batchId) := old(receipts)]
      ensures batch.None? ==> receipts == old(receipts) && batchId == old(batchId)
      ensures batch.None? && files != old(files) ==>
                && dirOk && !writeOk && old(batchId) in files
                && files == old(files)[old(batchId) := files[old(batchId)]]
                && files[old(batchId)] <= old(receipts)
      ensures batch.Some? ==> old(batchId) in files && batch == CompressOf(h, old(batchId), files[old(batchId)], now)
    {
      batch := Compress(h, now);
      if batch.None? {
        return;
      }
      if !dirOk {
        return None;
      }
      if !writeOk {
        files := files[batchId := receipts[..if torn < |receipts| then torn else |receipts|]];
        return None;
      }
      files := files[batchId := receipts];
      receipts := [];
      batchId := nextId;
    }
  }
}
