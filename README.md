# Mediledger ledger core in Dafny

This project models the proof-of-work ledger behind the Mediledger supply-chain
service, together with the request handlers that sit on top of it.

The ledger (`blockchain.py`) has two parts:

- **`Block`.** A block stores an index, its transactions, a timestamp, the
  previous block's hash, a nonce and a Merkle root. It also stores a content
  hash over those six fields. Once a block is locked, every attribute write
  except the one to `_locked` raises.
- **`Blockchain`.** A blockchain holds a list of blocks and a pool of pending
  transactions. Its operations are:
  - mining a genesis block;
  - stamping submitted transactions into the pool;
  - mining the pool into a new block linked to the last one;
  - answering three queries: whole-chain validity, transaction existence by
    content hash, and block lookup by hash.

The server (`blockchain_server.py`) exposes these operations as handlers:

- a submit request, which adds a transaction and then mines it;
- a batch-history filter over the sealed chain;
- transaction verification;
- chain status;
- chain export.

## Modules

- **`Encoding`:**
  - JSON values;
  - Python dictionaries as ordered association lists (`Get` is `dict.get`;
    `Put` is `{**d, k: v}`);
  - the two primitives the ledger uses without defining them, SHA-256 and
    `json.dumps`. These travel as a `Primitives` value holding two
    uninterpreted functions, so every property is stated relative to them.
- **`Merkle`:**
  - the Merkle fold as a recursive specification (`NextLevel`, `Fold`,
    `MerkleRoot`);
  - the source's level-by-level loop (`ComputeRoot`), proved equal to it.
- **`Blocks`:**
  - the hashed header and the exported record of a block;
  - the proof-of-work predicate;
  - the write guard of `__setattr__` (`WriteAllowed`);
  - class `Block`, whose fields are updated in place through `SetAttr`.
- **`Ledger`:**
  - stamping (`Stamp`);
  - the four checks of `is_chain_valid` (`LinkOk`, `ChainValid`);
  - the shape of every chain the ledger builds (`WellFormed`);
  - class `Blockchain`, whose class invariant `Valid()` says:
    - every block is locked;
    - the chain is well formed;
    - every pending transaction is stamped.

    The constructor establishes `Valid()`, and `add_transaction` and
    `mine_pending_transactions` preserve it. `ValidChainPasses` then proves
    that every such chain passes `is_chain_valid`.
- **`Server`:**
  - class `LedgerServer`, holding one `Blockchain`;
  - the batch filter as a specification (`Matching`, `History`) with
    membership lemmas.

## Model

| member | source | states |
|---|---|---|
| `Encoding.GetSpec` | blockchain_server.py:51 | `d.get(k)` finds `k` exactly when some entry has key `k`, and then returns the value of the first such entry |
| `Encoding.Put` | blockchain.py:93-98 | `{**d, k: v}` maps `k` to `v` and leaves every other key's value unchanged. An existing key keeps its position; a new key is appended at the end. |
| `Encoding.PutKeepsKeysDistinct` | blockchain.py:93-98 | writing a key keeps the keys of a dictionary distinct |
| `Merkle.MerkleRoot` | blockchain.py:18-35 | the root of no transactions is the hash of `"empty"`; the root of one transaction is that transaction's leaf hash |
| `Merkle.LeafHashes` | blockchain.py:22-23 | the leaf level has one digest per transaction, in order: entry `i` is `sha256(json.dumps(tx_i))`, with the keys left unsorted |
| `Merkle.NextLevel` | blockchain.py:26-33 | one folding round turns `n` digests into `ceil(n/2)` digests |
| `Merkle.NextLevelAt` | blockchain.py:27-32 | entry `k` of the next level is `sha256(h[2k] + h[2k+1])`, or `sha256(h[2k] + h[2k])` for an unpaired last entry |
| `Merkle.ComputeRoot` | blockchain.py:18-35 | the source's while/for loop returns exactly the folded root of the ordered leaf hashes |
| `Blocks.Zeros` | blockchain.py:79 | `'0' * d` is `d` characters, all `'0'` |
| `Blocks.MeetsDifficultyChars` | blockchain.py:79 | `MeetsDifficulty`, the test at lines 79 and 142: `hash.startswith('0' * d)` holds iff the hash has at least `d` characters and the first `d` are all `'0'` |
| `Blocks.BlockData` | blockchain.py:38-45 | the dictionary `calculate_hash` serializes has exactly six distinct keys, `index`, `transactions`, `timestamp`, `previous_hash`, `nonce` and `merkle_root`, each mapped to the block's value for that field |
| `Blocks.BlockDataInjective` | blockchain.py:38-45 | two blocks that differ in any of the six hashed fields serialize different dictionaries, so the block hash takes every one of them into account |
| `Blocks.WriteAllowed` | blockchain.py:53-56 | writes are allowed while `_locked` does not exist or is false; a locked block allows only a write of `_locked` |
| `Blocks.Block.constructor` | blockchain.py:8-16 | a new block has the given fields and nonce 0, its Merkle root, and the hash computed over that root. It is unlocked. |
| `Blocks.Block.CalculateHash` | blockchain.py:37-47 | `calculate_hash()` on the live block is the hash of the key-sorted serialization of its exported fields, the same digest that chain validation recomputes |
| `Blocks.Block.SetAttr` | blockchain.py:53-57 | a refused write raises `RuntimeError("Cannot modify locked block")` and leaves every field unchanged. An accepted write changes exactly the one attribute. |
| `Blocks.Block.Lock` | blockchain.py:49-51 | `lock` sets the flag and leaves every other field unchanged |
| `Ledger.Stamp` | blockchain.py:93-99 | a pool entry carries every submitted field except `timestamp` and `hash`. `timestamp` is the admission time; `hash` is the hash of the key-sorted serialization of the original transaction. Key order is kept. |
| `Ledger.StampHashIgnoresTime` | blockchain.py:96-98 | the `hash` a pool entry stores is the hash of the submitted transaction alone; the admission time does not change it |
| `Ledger.StampKeepsKeysDistinct` | blockchain.py:93-99 | a stamped transaction is still a dictionary with distinct keys, and its `hash` entry is a string |
| `Ledger.StampedAppend` | blockchain.py:93-99 | adding a stamped transaction keeps every pool entry stamped |
| `Ledger.ChainValidAppend` | blockchain.py:123-145 | a chain grown by one block passes `is_chain_valid` iff the old chain passes and the new block passes the four checks against the old last block |
| `Ledger.WellFormedFacts` | blockchain.py:123-145 | a chain built by the ledger is valid, block `i` has index `i`, and every sealed transaction is stamped |
| `Ledger.BlockStamped` | blockchain.py:150-151 | every transaction of a block in a built chain has a `hash` entry, so `transaction['hash']` cannot raise |
| `Ledger.WellFormedAppend` | blockchain.py:107-119 | appending a mined block that is linked to the last block and sits at the next index keeps the chain well formed |
| `Ledger.LastIndex` | blockchain.py:107-109 | the last block of a built chain has index `len(chain) - 1`, so a new block's index is the chain length |
| `Ledger.Records` | blockchain.py:164-175 | the export view has one record per block, in chain order, with that block's seven fields |
| `Ledger.Blockchain.ValidChainPasses` | blockchain.py:123-145 | a chain changed only by the constructor, `add_transaction` and `mine_pending_transactions` passes `is_chain_valid`. Its first block has index 0, no transactions and previous hash `"0"`, and is mined. |
| `Ledger.Blockchain.constructor` | blockchain.py:59-75 | a new ledger has difficulty 4, one locked genesis block built from `Block(0, [], now, "0")`, and an empty pool |
| `Ledger.Blockchain.CreateGenesisBlock` | blockchain.py:70-75 | the genesis block is mined, locked and appended; the pool is unchanged |
| `Ledger.Blockchain.NewSealedBlock` | blockchain.py:71-73 | a new block is mined at the first nonce whose hash meets the difficulty, then locked. Every other field is that of a freshly constructed block. |
| `Ledger.Blockchain.MineBlock` | blockchain.py:77-81 | `_mine_block` changes only `nonce` and `hash`, never decreases the nonce, and ends with a hash that meets the difficulty. When the stored hash was current on entry, as it is for every freshly constructed block, the final hash also equals `calculate_hash()`. It stops at the first nonce that works. On a locked block that needs work, the first write raises and nothing changes. |
| `Ledger.Blockchain.AddTransaction` | blockchain.py:90-99 | the pool grows by exactly the stamped transaction; the chain is unchanged |
| `Ledger.Blockchain.MinePendingTransactions` | blockchain.py:101-121 | with an empty pool, returns null and changes nothing (details below) |
| `Ledger.Blockchain.MinePool` | blockchain.py:107-121 | the non-empty branch: a block for the pool snapshot, at the next index, linked to the last block, appended, pool emptied |
| `Ledger.Blockchain.CommitBlock` | blockchain.py:117-119 | appending the block and emptying the pool keeps the ledger's invariant |
| `Ledger.Blockchain.IsChainValid` | blockchain.py:123-145 | returns true iff every block after the first passes the four checks against its predecessor; the genesis block is never checked |
| `Ledger.Blockchain.CheckLink` | blockchain.py:129-143 | the four checks, in the source's order: stored hash against recomputed hash, linkage, Merkle root, difficulty prefix |
| `Ledger.Blockchain.VerifyTransaction` | blockchain.py:147-153 | returns true iff some transaction of some block has `hash == h`; the pool is not searched |
| `Ledger.Blockchain.HasTransaction` | blockchain.py:150-152 | the inner loop finds a transaction with `hash == h` iff the block has one |
| `Ledger.Blockchain.GetBlockByHash` | blockchain.py:155-160 | returns the first block with the given hash, or null when no block has it |
| `Ledger.Blockchain.ExportChain` | blockchain.py:162-176 | one record of the seven block fields per block, in chain order |
| `Server.MatchingMembership` | blockchain_server.py:50-52 | `InBatch`, the test `tx.get('batch_id') == batch_id`: a transaction is kept by the per-block filter iff it is in the block and its `batch_id` equals the requested one |
| `Server.HistoryMembership` | blockchain_server.py:46-53 | a transaction is in a batch's history iff it is in the batch and in some block of the chain |
| `Server.HistoryAppend` | blockchain_server.py:46-53 | mining a block extends every batch's history by that block's matching transactions, in order |
| `Server.SealedTransactionExists` | blockchain.py:147-153 | once a block is appended, each of its transactions is found by its content hash |
| `Server.StampKeepsBatch` | blockchain.py:93-99 | stamping keeps a transaction's `batch_id` |
| `Server.LedgerServer.constructor` | blockchain_server.py:8-15 | the server starts with a fresh one-block ledger and an empty pool |
| `Server.LedgerServer.AddTransactionRequest` | blockchain_server.py:18-39 | a submit request adds exactly one block; see details below |
| `Server.LedgerServer.SubmitAndMine` | blockchain_server.py:24-27 | `add_transaction` followed by `mine_pending_transactions` always yields a block whose transactions are exactly the stamped submission |
| `Server.LedgerServer.GetProductHistory` | blockchain_server.py:46-53 | the nested loops return exactly the batch's history |
| `Server.LedgerServer.BatchMatches` | blockchain_server.py:50-52 | the inner loop returns the block's matching transactions in order |
| `Server.LedgerServer.VerifyTransactionRequest` | blockchain_server.py:55-58 | `exists` is the ledger's `verify_transaction` answer |
| `Server.LedgerServer.ChainStatusRequest` | blockchain_server.py:60-66 | `length`, `is_valid` and `pending_transactions` are the chain length, `is_chain_valid()` and the pool size. Through this server, `is_valid` is always true and the pool is always empty. |
| `Server.LedgerServer.GetChain` | blockchain_server.py:41-44 | returns the exported chain |

Details of two rows:

- **`MinePendingTransactions`, non-empty pool:**
  - the new block has index `last.index + 1`, previous hash `last.hash`, and
    the pool snapshot as its transactions;
  - it is mined and locked;
  - the chain grows by exactly this block, and earlier blocks are unchanged;
  - the pool is emptied.
- **`AddTransactionRequest`:**
  - a JSON object is stamped and mined into a new block linked to the old
    last block;
  - the reply carries that block's hash and
    `transaction_count == len(block.transactions)`;
  - "No transactions to mine" cannot occur;
  - afterwards the transaction is found by `verify_transaction`, and every
    batch's history grows by it alone when it belongs to that batch;
  - any other body is a server error that changes nothing.

## Left out

- **Hashing and serialization.**
  - SHA-256 and `json.dumps` are uninterpreted functions, so digest length,
    hex formatting and collision resistance are not modelled.
  - `json.dumps(..., indent=2)` in `export_chain`: `ExportChain` returns the
    record list, not its text.
- **Inputs from outside.**
  - Wall-clock time (`time()`) becomes a parameter of every operation that
    reads it.
  - A request body arrives as an already parsed JSON value; Flask, HTTP
    status codes as transport, `jsonify` and the server's `run` are not
    modelled.
  - Exception messages inside the submit handler become `ServerError`.
- Ledger.Blockchain.MineBlock: the unbounded search in `_mine_block` is not
  proved to terminate. Each mining call requires a nonce at which the hash
  meets the difficulty (`Mineable`), and the search is proved to stop at the
  first such nonce. Nothing is claimed when no such nonce exists.
- **Floating point.** Python floats (`time()` and any float in a request
  body) are modelled as `real`, so NaN and the infinities cannot be
  represented. No operation of the ledger computes with them; they are
  only stored and serialized.
- **Concurrency.** `threading.Lock` and concurrent requests are not
  modelled; every handler runs sequentially. The two separate lock
  acquisitions of a submit request are therefore one atomic step here.
- **State the ledger never reads.** `_update_chain_hash` and `_chain_hash`
  are left out: the hash is computed but never read.
- Ledger.Blockchain.VerifyTransaction requires the class invariant `Valid()`.
  The source runs it on any chain, and on a chain altered by other means
  `transaction['hash']` could raise `KeyError`. That path is not modelled;
  under `Valid()` it cannot occur.
- Ledger.Blockchain.AddTransaction requires the class invariant `Valid()`,
  which the source does not check; the model only runs it on ledgers the
  constructor built.
- Ledger.Blockchain.MinePendingTransactions requires the class invariant
  `Valid()`, which the source does not check; the model only runs it on
  ledgers the constructor built.
- Blocks.Block.SetAttr: only the eight attributes of a block are written
  through the guard. Python would also accept arbitrary new attribute names
  on an unlocked block.
- **Aliasing.**
  - Transactions are immutable values. Python's `pending_transactions.copy()`
    is shallow, so a block and a caller can share transaction dictionaries
    and one could mutate the other's. That sharing is not modelled.
  - A request whose JSON body is an object with non-string keys cannot
    arise.
- **Other files.** `app.py` (Flask routes, authentication, database models,
  QR codes, HTTP calls to the ledger) and `migrate_db.py` (table resets) are
  not part of this model.
