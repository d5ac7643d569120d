/** The request handlers of the ledger service, without the HTTP layer: each
    handler is a method on a server object that owns one `Blockchain`. */
module Server {
  import opened Encoding
  import opened Blocks
  import opened Ledger

  /** Reply to a submit request: the mined block's hash and transaction count
      (200), "No transactions to mine" (400), or an exception (500). */
  datatype SubmitResponse =
    | Added(blockHash: string, transactionCount: nat)
    | NothingToMine
    | ServerError

  /** Reply to a status request. */
  datatype ChainStatus = ChainStatus(length: nat, isValid: bool, pendingTransactions: nat)

  /** `tx.get('batch_id') == batch_id`. */
  predicate InBatch(tx: Dict, batchId: string)
  {
    Get(tx, "batch_id") == Some(JString(batchId))
  }

  /** The transactions of `txs` in batch `batchId`, in their order. */
  function Matching(txs: seq<Dict>, batchId: string): (r: seq<Dict>)
    ensures |r| <= |txs|
  {
    if txs == [] then []
    else Matching(txs[..|txs| - 1], batchId) + (if InBatch(txs[|txs| - 1], batchId) then [txs[|txs| - 1]] else [])
  }

  /** `Matching` keeps exactly the transactions of the batch. */
  lemma {:induction false} MatchingMembership(txs: seq<Dict>, batchId: string, tx: Dict)
    ensures tx in Matching(txs, batchId) <==> tx in txs && InBatch(tx, batchId)
  {
    if txs != [] {
      var init := txs[..|txs| - 1];
      MatchingMembership(init, batchId, tx);
      assert txs == init + [txs[|txs| - 1]];
    }
  }

  /** The sealed transactions of batch `batchId`: chain order first, then
      order inside each block. */
  function History(rs: seq<BlockRecord>, batchId: string): seq<Dict>
  {
    if rs == [] then []
    else History(rs[..|rs| - 1], batchId) + Matching(rs[|rs| - 1].transactions, batchId)
  }

  /** A transaction is in the history of a batch exactly when it belongs to
      the batch and to some block of the chain. */
  lemma {:induction false} HistoryMembership(rs: seq<BlockRecord>, batchId: string, tx: Dict)
    ensures tx in History(rs, batchId) <==>
      InBatch(tx, batchId) && exists i :: 0 <= i < |rs| && tx in rs[i].transactions
  {
    if rs != [] {
      var init := rs[..|rs| - 1];
      HistoryMembership(init, batchId, tx);
      MatchingMembership(rs[|rs| - 1].transactions, batchId, tx);
      if exists i :: 0 <= i < |rs| && tx in rs[i].transactions {
        var i :| 0 <= i < |rs| && tx in rs[i].transactions;
        if i < |rs| - 1 {
          assert init[i] == rs[i];
        }
      }
      if exists i :: 0 <= i < |init| && tx in init[i].transactions {
        var i :| 0 <= i < |init| && tx in init[i].transactions;
        assert rs[i] == init[i];
      }
    }
  }

  /** The history of a chain grown by one block is the old history followed by
      that block's matching transactions. */
  lemma HistoryAppend(rs: seq<BlockRecord>, r: BlockRecord, batchId: string)
    ensures History(rs + [r], batchId) == History(rs, batchId) + Matching(r.transactions, batchId)
  {
    assert (rs + [r])[..|rs|] == rs;
  }

  /** Once a block is appended, each of its transactions can be found by its
      content hash. */
  lemma SealedTransactionExists(rs: seq<BlockRecord>, r: BlockRecord, j: nat, h: string)
    requires j < |r.transactions| && Get(r.transactions[j], "hash") == Some(JString(h))
    ensures TxExists(rs + [r], h)
  {
    assert (rs + [r])[|rs|] == r;
  }

  /** Stamping keeps a transaction's `batch_id`. */
  lemma StampKeepsBatch(p: Primitives, tx: Dict, now: real, batchId: string)
    ensures InBatch(Stamp(p, tx, now), batchId) <==> InBatch(tx, batchId)
  {
  }

  class LedgerServer {
    const blockchain: Blockchain

    /** The ledger's own invariant, and an empty pool: every request that adds
        a transaction also mines it. */
    ghost predicate Valid()
      reads this, blockchain, blockchain.chain
    {
      blockchain.Valid() && blockchain.pendingTransactions == []
    }

    /** The header a submit request of `tx` mines, admitted at `admittedAt`
        and mined at `minedAt`. */
    ghost function SubmitCandidate(tx: Dict, admittedAt: real, minedAt: real): Header
      reads this, blockchain, blockchain.chain
      requires |blockchain.chain| >= 1
    {
      var last := blockchain.Last();
      Candidate(blockchain.prims, last.index + 1,
                blockchain.pendingTransactions + [Stamp(blockchain.prims, tx, admittedAt)],
                minedAt, last.hash)
    }

    constructor (p: Primitives, now: real)
      requires Mineable(p, Difficulty, Candidate(p, 0, [], now, GenesisPreviousHash))
      ensures Valid() && fresh(blockchain) && blockchain.prims == p
      ensures blockchain.difficulty == Difficulty
      ensures |blockchain.chain| == 1
    {
      blockchain := new Blockchain(p, now);
    }

    /** `POST /add_transaction`: a JSON object is stamped, added to the pool
        and mined at once into a new block holding just it; any other body
        raises inside `add_transaction` and nothing changes.  The "nothing to
        mine" reply cannot occur. */
    method AddTransactionRequest(body: Json, admittedAt: real, minedAt: real) returns (response: SubmitResponse)
      requires Valid()
      requires body.JObject? ==>
        Mineable(blockchain.prims, blockchain.difficulty, SubmitCandidate(body.fields, admittedAt, minedAt))
      modifies blockchain
      ensures Valid()
      ensures !body.JObject? ==> response == ServerError && blockchain.chain == old(blockchain.chain)
      ensures body.JObject? ==>
        var stamped := Stamp(blockchain.prims, body.fields, admittedAt);
        && |blockchain.chain| == |old(blockchain.chain)| + 1
        && blockchain.chain[..|old(blockchain.chain)|] == old(blockchain.chain)
        && blockchain.Last().transactions == [stamped]
        && blockchain.Last().previousHash == old(blockchain.Last().hash)
        && response == Added(blockchain.Last().hash, |blockchain.Last().transactions|)
        && TxExists(Records(blockchain.chain), TxHash(blockchain.prims, body.fields))
        && forall b :: History(Records(blockchain.chain), b) == History(old(Records(blockchain.chain)), b) + Matching([stamped], b)
    {
      if !body.JObject? {
        return ServerError;
      }
      ghost var oldRecords := Records(blockchain.chain);
      var block := SubmitAndMine(body.fields, admittedAt, minedAt);
      if block != null {
        response := Added(block.hash, |block.transactions|);
      } else {
        response := NothingToMine;
      }
      SealedTransactionExists(oldRecords, block.Record(), 0, TxHash(blockchain.prims, body.fields));
      forall b {
        HistoryAppend(oldRecords, block.Record(), b);
      }
    }

    /** The two ledger calls of a submit request: `add_transaction`, then
        `mine_pending_transactions`, which finds the transaction just added. */
    method SubmitAndMine(tx: Dict, admittedAt: real, minedAt: real) returns (block: Block?)
      requires Valid()
      requires Mineable(blockchain.prims, blockchain.difficulty, SubmitCandidate(tx, admittedAt, minedAt))
      modifies blockchain
      ensures Valid()
      ensures block != null && fresh(block)
      ensures blockchain.chain == old(blockchain.chain) + [block]
      ensures Records(blockchain.chain) == old(Records(blockchain.chain)) + [block.Record()]
      ensures block.transactions == [Stamp(blockchain.prims, tx, admittedAt)]
      ensures block.previousHash == old(blockchain.Last().hash)
    {
      ghost var candidate := SubmitCandidate(tx, admittedAt, minedAt);
      blockchain.AddTransaction(tx, admittedAt);
      assert blockchain.pendingTransactions == [Stamp(blockchain.prims, tx, admittedAt)];
      assert blockchain.NextCandidate(minedAt) == candidate;
      block := blockchain.MinePendingTransactions(minedAt);
    }

    /** `GET /get_product_history/<batch_id>`: the sealed transactions of the
        batch; pending ones are not searched. */
    method GetProductHistory(batchId: string) returns (transactions: seq<Dict>)
      ensures transactions == History(Records(blockchain.chain), batchId)
    {
      ghost var rs := Records(blockchain.chain);
      var chain := blockchain.chain;
      transactions := [];
      for i := 0 to |chain|
        invariant transactions == History(rs[..i], batchId)
      {
        var matches := BatchMatches(chain[i].transactions, batchId);
        assert rs[..i + 1][..i] == rs[..i];
        transactions := transactions + matches;
      }
      assert rs[..|chain|] == rs;
    }

    /** The inner loop of the history request: one block's transactions that
        belong to the batch. */
    static method BatchMatches(txs: seq<Dict>, batchId: string) returns (matches: seq<Dict>)
      ensures matches == Matching(txs, batchId)
    {
      matches := [];
      for j := 0 to |txs|
        invariant matches == Matching(txs[..j], batchId)
      {
        assert txs[..j + 1][..j] == txs[..j];
        if Get(txs[j], "batch_id") == Some(JString(batchId)) {
          matches := matches + [txs[j]];
        }
      }
      assert txs[..|txs|] == txs;
    }

    /** `GET /verify_transaction/<hash>`: the ledger's own answer. */
    method VerifyTransactionRequest(transactionHash: string) returns (exists_: bool)
      requires Valid()
      ensures exists_ == TxExists(Records(blockchain.chain), transactionHash)
    {
      exists_ := blockchain.VerifyTransaction(transactionHash);
    }

    /** `GET /chain_status`: length, validity and pool size; through this
        server the chain is always valid and the pool always empty. */
    method ChainStatusRequest() returns (status: ChainStatus)
      requires Valid()
      ensures status.length == |blockchain.chain|
      ensures status.isValid == ChainValid(blockchain.prims, blockchain.difficulty, Records(blockchain.chain))
      ensures status.pendingTransactions == |blockchain.pendingTransactions|
      ensures status.isValid && status.pendingTransactions == 0
    {
      blockchain.ValidChainPasses();
      var valid := blockchain.IsChainValid();
      status := ChainStatus(|blockchain.chain|, valid, |blockchain.pendingTransactions|);
    }

    /** `GET /get_chain`: the exported chain. */
    method GetChain() returns (exported: seq<BlockRecord>)
      ensures exported == Records(blockchain.chain)
    {
      exported := blockchain.ExportChain();
    }
  }
}
