/** The ledger: a chain of mined, locked blocks and a pool of stamped pending
    transactions, with chain validation and lookups. */
module Ledger {
  import opened Encoding
  import opened Merkle
  import opened Blocks

  /** The number of leading '0' hex digits a block hash needs. */
  const Difficulty: nat := 4

  /** The `previous_hash` of the genesis block. */
  const GenesisPreviousHash: string := "0"

  /** Content hash of a submitted transaction: SHA-256 of its key-sorted
      serialization, taken before the ledger adds its own fields. */
  function TxHash(p: Primitives, tx: Dict): string
  {
    p.sha256(p.dumps(JObject(tx), true))
  }

  /** `{**tx, 'timestamp': now, 'hash': TxHash(tx)}`: the submitted fields with
      the admission time written over `timestamp` and the content hash of the
      original transaction under `hash`; keys keep their order. */
  function Stamp(p: Primitives, tx: Dict, now: real): (s: Dict)
    ensures Get(s, "timestamp") == Some(JFloat(now))
    ensures Get(s, "hash") == Some(JString(TxHash(p, tx)))
    ensures forall k :: k != "timestamp" && k != "hash" ==> Get(s, k) == Get(tx, k)
    ensures |tx| <= |s| && forall i :: 0 <= i < |tx| ==> s[i].0 == tx[i].0
  {
    Put(Put(tx, "timestamp", JFloat(now)), "hash", JString(TxHash(p, tx)))
  }

  /** The `hash` a pool entry stores depends on the submitted transaction
      only, never on the admission time. */
  lemma StampHashIgnoresTime(p: Primitives, tx: Dict, t1: real, t2: real)
    ensures Get(Stamp(p, tx, t1), "hash") == Get(Stamp(p, tx, t2), "hash") == Some(JString(TxHash(p, tx)))
  {
  }

  /** A transaction as the pool holds it: its `hash` entry is a string. */
  predicate Stamped(tx: Dict)
  {
    Get(tx, "hash").Some? && Get(tx, "hash").value.JString?
  }

  /** A stamped transaction stays a Python dict: its keys stay distinct. */
  lemma StampKeepsKeysDistinct(p: Primitives, tx: Dict, now: real)
    requires DistinctKeys(tx)
    ensures DistinctKeys(Stamp(p, tx, now)) && Stamped(Stamp(p, tx, now))
  {
    PutKeepsKeysDistinct(tx, "timestamp", JFloat(now));
    PutKeepsKeysDistinct(Put(tx, "timestamp", JFloat(now)), "hash", JString(TxHash(p, tx)));
  }

  /** A block that is fully sealed: stored hash and Merkle root match their
      recomputations, and the hash meets the difficulty. */
  predicate Sealed(p: Primitives, d: nat, r: BlockRecord)
  {
    && r.hash == BlockHash(p, HeaderOf(r))
    && r.merkleRoot == MerkleRoot(p, r.transactions)
    && MeetsDifficulty(r.hash, d)
  }

  /** The four checks `is_chain_valid` makes on a block against its predecessor:
      hash, linkage, Merkle root, proof of work. */
  predicate LinkOk(p: Primitives, d: nat, prev: BlockRecord, cur: BlockRecord)
  {
    Sealed(p, d, cur) && cur.previousHash == prev.hash
  }

  /** Every block after the first passes the four checks; the first block is
      never checked. */
  predicate ChainValid(p: Primitives, d: nat, rs: seq<BlockRecord>)
  {
    forall i :: 1 <= i < |rs| ==> LinkOk(p, d, rs[i - 1], rs[i])
  }

  /** Appending a block keeps a chain valid exactly when the block passes the
      four checks against the old last block. */
  lemma ChainValidAppend(p: Primitives, d: nat, rs: seq<BlockRecord>, r: BlockRecord)
    requires |rs| >= 1
    ensures ChainValid(p, d, rs + [r]) <==> ChainValid(p, d, rs) && LinkOk(p, d, rs[|rs| - 1], r)
  {
    var rs' := rs + [r];
    if ChainValid(p, d, rs') {
      forall i | 1 <= i < |rs|
        ensures LinkOk(p, d, rs[i - 1], rs[i])
      {
        assert rs'[i - 1] == rs[i - 1] && rs'[i] == rs[i];
      }
      assert rs'[|rs| - 1] == rs[|rs| - 1] && rs'[|rs|] == r;
    }
    if ChainValid(p, d, rs) && LinkOk(p, d, rs[|rs| - 1], r) {
      forall i | 1 <= i < |rs'|
        ensures LinkOk(p, d, rs'[i - 1], rs'[i])
      {
        if i < |rs| {
          assert rs'[i - 1] == rs[i - 1] && rs'[i] == rs[i];
        } else {
          assert rs'[i - 1] == rs[|rs| - 1] && rs'[i] == r;
        }
      }
      assert ChainValid(p, d, rs');
    }
  }

  /** All transactions of a block are stamped. */
  predicate AllStamped(txs: seq<Dict>)
  {
    forall j :: 0 <= j < |txs| ==> Stamped(txs[j])
  }

  /** Adding a stamped transaction to a stamped pool keeps it stamped. */
  lemma StampedAppend(p: Primitives, pool: seq<Dict>, tx: Dict, now: real)
    requires AllStamped(pool)
    ensures AllStamped(pool + [Stamp(p, tx, now)])
  {
    var pool' := pool + [Stamp(p, tx, now)];
    forall j | 0 <= j < |pool'|
      ensures Stamped(pool'[j])
    {
      if j < |pool| {
        assert pool'[j] == pool[j];
      }
    }
  }

  /** The block the genesis step produces: index 0, no transactions,
      `previous_hash` "0", sealed like every other block. */
  predicate GenesisOk(p: Primitives, d: nat, g: BlockRecord)
  {
    && g.index == 0
    && g.transactions == []
    && g.previousHash == GenesisPreviousHash
    && Sealed(p, d, g)
  }

  /** The block one mining step appends at position `i` after `prev`: sealed,
      linked to `prev`, at its own index, holding stamped transactions. */
  predicate Extends(p: Primitives, d: nat, prev: BlockRecord, r: BlockRecord, i: int)
  {
    && Sealed(p, d, r)
    && r.previousHash == prev.hash
    && r.index == i
    && AllStamped(r.transactions)
  }

  /** A chain as the ledger's own operations build it: a genesis block, then
      blocks each appended by one mining step. */
  predicate WellFormed(p: Primitives, d: nat, rs: seq<BlockRecord>)
  {
    && |rs| >= 1
    && GenesisOk(p, d, rs[0])
    && forall i :: 1 <= i < |rs| ==> Extends(p, d, rs[i - 1], rs[i], i)
  }

  /** What a well-formed chain guarantees: it is valid, each block sits at its
      own index, and every sealed transaction is stamped. */
  lemma WellFormedFacts(p: Primitives, d: nat, rs: seq<BlockRecord>)
    requires WellFormed(p, d, rs)
    ensures ChainValid(p, d, rs)
    ensures forall i :: 0 <= i < |rs| ==> rs[i].index == i
    ensures forall i :: 0 <= i < |rs| ==> AllStamped(rs[i].transactions)
  {
    forall i | 0 <= i < |rs|
      ensures rs[i].index == i && AllStamped(rs[i].transactions)
      ensures i >= 1 ==> LinkOk(p, d, rs[i - 1], rs[i])
    {
      if i >= 1 {
        assert Extends(p, d, rs[i - 1], rs[i], i);
      }
    }
  }

  /** Every block of a well-formed chain holds stamped transactions. */
  lemma BlockStamped(p: Primitives, d: nat, rs: seq<BlockRecord>, i: int)
    requires WellFormed(p, d, rs) && 0 <= i < |rs|
    ensures AllStamped(rs[i].transactions)
  {
    if i > 0 {
      assert Extends(p, d, rs[i - 1], rs[i], i);
    }
  }

  /** Appending a sealed block of stamped transactions at the next index,
      linked to the last block, keeps a chain well formed. */
  lemma WellFormedAppend(p: Primitives, d: nat, rs: seq<BlockRecord>, prev: BlockRecord, r: BlockRecord, i: int)
    requires WellFormed(p, d, rs) && prev == rs[|rs| - 1] && i == |rs|
    requires Extends(p, d, prev, r, i)
    ensures WellFormed(p, d, rs + [r])
  {
    var rs' := rs + [r];
    forall k | 1 <= k < |rs'|
      ensures Extends(p, d, rs'[k - 1], rs'[k], k)
    {
      if k < |rs| {
        assert rs'[k - 1] == rs[k - 1] && rs'[k] == rs[k];
      } else {
        assert rs'[k - 1] == prev && rs'[k] == r;
      }
    }
    assert rs'[0] == rs[0];
  }

  /** The last block of a well-formed chain sits at the last index. */
  lemma LastIndex(p: Primitives, d: nat, rs: seq<BlockRecord>)
    requires WellFormed(p, d, rs)
    ensures |rs| >= 1 && rs[|rs| - 1].index == |rs| - 1
  {
    if |rs| > 1 {
      assert Extends(p, d, rs[|rs| - 2], rs[|rs| - 1], |rs| - 1);
    }
  }

  /** Some sealed transaction has content hash `h`. */
  predicate TxExists(rs: seq<BlockRecord>, h: string)
  {
    exists i, j :: 0 <= i < |rs| && 0 <= j < |rs[i].transactions| &&
      Get(rs[i].transactions[j], "hash") == Some(JString(h))
  }

  /** The export view of a list of blocks. */
  function Records(bs: seq<Block>): (rs: seq<BlockRecord>)
    reads bs
    ensures |rs| == |bs| && forall i :: 0 <= i < |bs| ==> rs[i] == bs[i].Record()
  {
    if bs == [] then [] else Records(bs[..|bs| - 1]) + [bs[|bs| - 1].Record()]
  }

  /** Every block of `bs` is locked. */
  predicate AllLocked(bs: seq<Block>)
    reads bs
  {
    bs == [] || (AllLocked(bs[..|bs| - 1]) && bs[|bs| - 1].locked)
  }

  /** The records of a list grown by one block. */
  lemma RecordsAppend(bs: seq<Block>, b: Block)
    ensures Records(bs + [b]) == Records(bs) + [b.Record()]
  {
    assert (bs + [b])[..|bs|] == bs;
  }

  /** A list of locked blocks grown by a locked block is all locked. */
  lemma AllLockedAppend(bs: seq<Block>, b: Block)
    requires AllLocked(bs) && b.locked
    ensures AllLocked(bs + [b])
  {
    assert (bs + [b])[..|bs|] == bs;
  }

  /** Writes that touch none of the blocks keep their records and their locks. */
  twostate lemma BlocksUnchanged(bs: seq<Block>)
    requires unchanged(bs)
    ensures Records(bs) == old(Records(bs))
    ensures AllLocked(bs) == old(AllLocked(bs))
  {
  }

  class Blockchain {
    const prims: Primitives
    const difficulty: nat
    var chain: seq<Block>
    var pendingTransactions: seq<Dict>
    /** The chain as `export_chain` lists it, kept beside the blocks.
        `ChainOk` ties it to `Records(chain)`; stating `WellFormed` over this
        value rather than over the heap lets the operations that only touch
        the pool, or only allocate a new block, keep the chain's shape
        without re-reading every block. */
    ghost var records: seq<BlockRecord>

    /** What the constructor, `add_transaction` and
        `mine_pending_transactions` keep true: every block locked, the chain
        well formed, every pending transaction stamped. */
    ghost predicate Valid()
      reads this, chain
    {
      ChainOk() && PoolOk()
    }

    /** The chain half of `Valid`: every block locked, the chain well formed. */
    ghost predicate ChainOk()
      reads this`chain, this`records, chain
    {
      && |chain| >= 1
      && AllLocked(chain)
      && Records(chain) == records
      && WellFormed(prims, difficulty, records)
    }

    /** The pool half of `Valid`: every pending transaction stamped. */
    ghost predicate PoolOk()
      reads this`pendingTransactions
    {
      AllStamped(pendingTransactions)
    }

    /** A ledger changed only by its constructor, `add_transaction` and
        `mine_pending_transactions` passes `is_chain_valid`, and its first
        block is a genesis block. */
    lemma ValidChainPasses()
      requires Valid()
      ensures ChainValid(prims, difficulty, Records(chain))
      ensures GenesisOk(prims, difficulty, chain[0].Record())
    {
      WellFormedFacts(prims, difficulty, records);
    }

    function Last(): Block
      reads this`chain
      requires |chain| >= 1
    {
      chain[|chain| - 1]
    }

    /** The header of the block `mine_pending_transactions` would build at
        time `now`. */
    function NextCandidate(now: real): Header
      reads this, chain
      requires |chain| >= 1
    {
      Candidate(prims, Last().index + 1, pendingTransactions, now, Last().hash)
    }

    /** A ledger with a mined, locked genesis block and an empty pool. */
    constructor (p: Primitives, now: real)
      requires Mineable(p, Difficulty, Candidate(p, 0, [], now, GenesisPreviousHash))
      ensures Valid()
      ensures prims == p && difficulty == Difficulty
      ensures |chain| == 1 && fresh(chain[0]) && pendingTransactions == []
      ensures chain[0].Content() == WithNonce(Candidate(p, 0, [], now, GenesisPreviousHash), chain[0].nonce)
    {
      prims := p;
      difficulty := Difficulty;
      chain := [];
      pendingTransactions := [];
      new;
      CreateGenesisBlock(now);
      records := Records(chain);
    }

    /** Builds, mines and locks the genesis block and appends it. */
    method CreateGenesisBlock(now: real)
      requires Mineable(prims, difficulty, Candidate(prims, 0, [], now, GenesisPreviousHash))
      modifies this
      ensures pendingTransactions == old(pendingTransactions)
      ensures |chain| == |old(chain)| + 1 && chain[..|old(chain)|] == old(chain)
      ensures fresh(Last()) && Last().locked
      ensures Last().Content() == WithNonce(Candidate(prims, 0, [], now, GenesisPreviousHash), Last().nonce)
      ensures Sealed(prims, difficulty, Last().Record())
    {
      var genesis := NewSealedBlock(0, [], now, GenesisPreviousHash);
      chain := chain + [genesis];
    }

    /** The steps both block-producing operations take: construct a block,
        mine it, lock it.  Its nonce is the first one at which the hash meets
        the difficulty. */
    method NewSealedBlock(index: int, txs: seq<Dict>, now: real, previousHash: string) returns (block: Block)
      requires Mineable(prims, difficulty, Candidate(prims, index, txs, now, previousHash))
      ensures fresh(block) && block.locked
      ensures block.Content() == WithNonce(Candidate(prims, index, txs, now, previousHash), block.nonce)
      ensures Sealed(prims, difficulty, block.Record())
      ensures forall n :: 0 <= n < block.nonce ==>
        !MeetsDifficulty(BlockHash(prims, WithNonce(block.Content(), n)), difficulty)
    {
      block := new Block(prims, index, txs, now, previousHash);
      ghost var c := block.Content();
      ghost var n :| c.nonce <= n && MeetsDifficulty(BlockHash(prims, WithNonce(c, n)), difficulty);
      assert WithNonce(c, 0) == c;
      var _ := MineBlock(block, n);
      forall m | 0 <= m < block.nonce
        ensures !MeetsDifficulty(BlockHash(prims, WithNonce(block.Content(), m)), difficulty)
      {
        assert WithNonce(block.Content(), m) == WithNonce(c, m);
      }
      block.Lock();
    }

    /** `_mine_block`: increments the nonce and rehashes, through the write
        guard, until the hash meets the difficulty.  On an unlocked block it
        stops at the first nonce that works; on a locked block whose hash does
        not meet the difficulty the first write raises and nothing changes.
        `target` is a nonce at which the search is known to succeed: the
        search itself is unbounded. */
    method MineBlock(block: Block, ghost target: int) returns (r: Outcome)
      requires !block.locked ==>
        MeetsDifficulty(block.hash, difficulty) ||
        (block.nonce < target && MeetsDifficulty(BlockHash(prims, WithNonce(block.Content(), target)), difficulty))
      modifies block
      ensures block.locked == old(block.locked)
      ensures r.Done? <==> !old(block.locked) || MeetsDifficulty(old(block.hash), difficulty)
      ensures r.Done? ==> MeetsDifficulty(block.hash, difficulty)
      ensures r.Raised? ==> unchanged(block)
      ensures old(block.locked) ==> unchanged(block)
      ensures block.Content() == WithNonce(old(block.Content()), block.nonce)
      ensures old(block.nonce) <= block.nonce
      ensures block.nonce == old(block.nonce) ==> block.hash == old(block.hash)
      ensures block.nonce != old(block.nonce) ==> block.hash == block.CalculateHash(prims)
      ensures old(block.hash) == old(block.CalculateHash(prims)) ==> block.hash == block.CalculateHash(prims)
      ensures block.nonce != old(block.nonce) ==> !MeetsDifficulty(old(block.hash), difficulty)
      ensures forall n :: old(block.nonce) < n < block.nonce ==>
        !MeetsDifficulty(BlockHash(prims, WithNonce(old(block.Content()), n)), difficulty)
    {
      r := Done;
      while !MeetsDifficulty(block.hash, difficulty)
        invariant r == Done
        invariant block.locked == old(block.locked)
        invariant old(block.locked) ==> unchanged(block)
        invariant block.Content() == WithNonce(old(block.Content()), block.nonce)
        invariant old(block.nonce) <= block.nonce
        invariant block.nonce == old(block.nonce) ==> block.hash == old(block.hash)
        invariant block.nonce != old(block.nonce) ==> block.hash == block.CalculateHash(prims)
        invariant block.nonce != old(block.nonce) ==> !MeetsDifficulty(old(block.hash), difficulty)
        invariant forall n :: old(block.nonce) < n < block.nonce ==>
          !MeetsDifficulty(BlockHash(prims, WithNonce(old(block.Content()), n)), difficulty)
        invariant !block.locked && !MeetsDifficulty(block.hash, difficulty) ==> block.nonce < target
        decreases target - block.nonce
      {
        r := block.SetAttr(SetNonce(block.nonce + 1));
        if r.Raised? {
          return;
        }
        r := block.SetAttr(SetHash(block.CalculateHash(prims)));
      }
      if block.nonce == old(block.nonce) {
        assert block.Content() == old(block.Content());
      }
    }

    /** `add_transaction`: appends the stamped transaction to the pool. */
    method AddTransaction(transaction: Dict, now: real)
      requires Valid()
      modifies this`pendingTransactions
      ensures Valid()
      ensures pendingTransactions == old(pendingTransactions) + [Stamp(prims, transaction, now)]
      ensures chain == old(chain)
    {
      StampedAppend(prims, pendingTransactions, transaction, now);
      pendingTransactions := pendingTransactions + [Stamp(prims, transaction, now)];
    }

    /** `mine_pending_transactions`: with an empty pool, returns null and changes
        nothing; otherwise mines the pool into a new locked block linked to the
        last one, appends it and empties the pool. */
    method MinePendingTransactions(now: real) returns (block: Block?)
      requires Valid()
      requires pendingTransactions != [] ==> Mineable(prims, difficulty, NextCandidate(now))
      modifies this
      ensures Valid()
      ensures old(pendingTransactions) == [] ==>
        block == null && chain == old(chain) && pendingTransactions == old(pendingTransactions)
      ensures old(pendingTransactions) != [] ==>
        && block != null && fresh(block)
        && chain == old(chain) + [block]
        && Records(chain) == old(Records(chain)) + [block.Record()]
        && pendingTransactions == []
        && block.locked
        && block.Content() == WithNonce(old(NextCandidate(now)), block.nonce)
        && Sealed(prims, difficulty, block.Record())
        && forall n :: 0 <= n < block.nonce ==>
             !MeetsDifficulty(BlockHash(prims, WithNonce(block.Content(), n)), difficulty)
    {
      if pendingTransactions == [] {
        return null;
      }
      block := MinePool(now);
    }

    /** The non-empty branch of `mine_pending_transactions`: a block for the
        pool snapshot, at the next index, linked to the last block. */
    method MinePool(now: real) returns (block: Block)
      requires Valid() && pendingTransactions != []
      requires Mineable(prims, difficulty, NextCandidate(now))
      modifies this
      ensures Valid()
      ensures fresh(block)
      ensures chain == old(chain) + [block]
      ensures Records(chain) == old(Records(chain)) + [block.Record()]
      ensures pendingTransactions == []
      ensures block.locked
      ensures block.Content() == WithNonce(old(NextCandidate(now)), block.nonce)
      ensures Sealed(prims, difficulty, block.Record())
      ensures forall n :: 0 <= n < block.nonce ==>
        !MeetsDifficulty(BlockHash(prims, WithNonce(block.Content(), n)), difficulty)
    {
      var lastBlock := chain[|chain| - 1];
      ghost var oldChain := chain;
      ghost var oldRecords := Records(chain);
      LastIndex(prims, difficulty, oldRecords);
      assert lastBlock.Record() == oldRecords[|oldRecords| - 1];
      ghost var candidate := NextCandidate(now);
      block := NewSealedBlock(lastBlock.index + 1, pendingTransactions, now, lastBlock.hash);
      assert unchanged(oldChain);
      assert Records(chain) == oldRecords;
      assert block.Content() == WithNonce(candidate, block.nonce);
      CommitBlock(block);
      assert Records(chain) == oldRecords + [block.Record()];
    }

    /** The last two steps of `mine_pending_transactions`: append the sealed
        block and empty the pool. */
    method CommitBlock(block: Block)
      requires ChainOk() && block.locked
      requires Extends(prims, difficulty, Last().Record(), block.Record(), |chain|)
      modifies this`chain, this`records, this`pendingTransactions
      ensures Valid()
      ensures chain == old(chain) + [block] && pendingTransactions == []
      ensures Records(chain) == old(Records(chain)) + [block.Record()]
    {
      ghost var r := block.Record();
      WellFormedAppend(prims, difficulty, records, Last().Record(), r, |chain|);
      RecordsAppend(chain, block);
      AllLockedAppend(chain, block);
      ghost var newChain := chain + [block];
      chain := chain + [block];
      records := records + [r];
      pendingTransactions := [];
      BlocksUnchanged(newChain);
    }

    /** `is_chain_valid`: scans blocks 1.. and stops at the first failing check. */
    method IsChainValid() returns (valid: bool)
      ensures valid == ChainValid(prims, difficulty, Records(chain))
    {
      ghost var rs := Records(chain);
      var i := 1;
      while i < |chain|
        invariant 1 <= i
        invariant forall k :: 1 <= k < i && k < |rs| ==> LinkOk(prims, difficulty, rs[k - 1], rs[k])
      {
        var ok := CheckLink(chain[i - 1], chain[i]);
        assert rs[i - 1] == chain[i - 1].Record() && rs[i] == chain[i].Record();
        if !ok {
          return false;
        }
        i := i + 1;
      }
      return true;
    }

    /** The four checks of one loop step of `is_chain_valid`, in the source's
        order: stored hash, linkage, Merkle root, proof of work. */
    method CheckLink(previousBlock: Block, currentBlock: Block) returns (ok: bool)
      ensures ok == LinkOk(prims, difficulty, previousBlock.Record(), currentBlock.Record())
    {
      if currentBlock.hash != currentBlock.CalculateHash(prims) {
        return false;
      }
      if currentBlock.previousHash != previousBlock.hash {
        return false;
      }
      var root := ComputeRoot(prims, currentBlock.transactions);
      if currentBlock.merkleRoot != root {
        return false;
      }
      return MeetsDifficulty(currentBlock.hash, difficulty);
    }

    /** `verify_transaction`: whether a sealed transaction carries content hash
        `h`; the pool is not searched. */
    method VerifyTransaction(h: string) returns (found: bool)
      requires Valid()
      ensures found == TxExists(Records(chain), h)
    {
      ghost var rs := Records(chain);
      for i := 0 to |chain|
        invariant forall i', j :: 0 <= i' < i && 0 <= j < |rs[i'].transactions| ==>
          Get(rs[i'].transactions[j], "hash") != Some(JString(h))
      {
        var txs := chain[i].transactions;
        assert txs == rs[i].transactions;
        BlockStamped(prims, difficulty, rs, i);
        found := HasTransaction(txs, h);
        if found {
          ghost var j :| 0 <= j < |txs| && Get(txs[j], "hash") == Some(JString(h));
          return;
        }
      }
      return false;
    }

    /** The inner loop of `verify_transaction`: whether one block's
        transactions include one with content hash `h`.  Every entry is
        stamped, so reading its `hash` never raises. */
    static method HasTransaction(txs: seq<Dict>, h: string) returns (found: bool)
      requires AllStamped(txs)
      ensures found <==> exists j :: 0 <= j < |txs| && Get(txs[j], "hash") == Some(JString(h))
    {
      for j := 0 to |txs|
        invariant forall j' :: 0 <= j' < j ==> Get(txs[j'], "hash") != Some(JString(h))
      {
        var stored := Get(txs[j], "hash");
        assert stored.Some?;  // `transaction['hash']` never raises KeyError here
        if stored == Some(JString(h)) {
          return true;
        }
      }
      return false;
    }

    /** `get_block_by_hash`: the first block whose hash is `h`, or null. */
    method GetBlockByHash(h: string) returns (b: Block?)
      ensures b == null ==> forall i :: 0 <= i < |chain| ==> chain[i].hash != h
      ensures b != null ==>
        exists i :: 0 <= i < |chain| && chain[i] == b && b.hash == h && (forall j :: 0 <= j < i ==> chain[j].hash != h)
    {
      for i := 0 to |chain|
        invariant forall j :: 0 <= j < i ==> chain[j].hash != h
      {
        if chain[i].hash == h {
          return chain[i];
        }
      }
      return null;
    }

    /** `export_chain`: one record of seven fields per block, in chain order. */
    method ExportChain() returns (exported: seq<BlockRecord>)
      ensures |exported| == |chain|
      ensures forall i :: 0 <= i < |chain| ==> exported[i] == chain[i].Record()
    {
      exported := [];
      for i := 0 to |chain|
        invariant |exported| == i
        invariant forall k :: 0 <= k < i ==> exported[k] == chain[k].Record()
      {
        var b := chain[i];
        exported := exported + [BlockRecord(b.index, b.transactions, b.timestamp, b.previousHash, b.hash, b.nonce, b.merkleRoot)];
      }
    }
  }
}
