/** A block of the ledger: its hashed content, its content hash, the
    proof-of-work predicate, and the write guard that freezes a block once it
    is locked. */
module Blocks {
  import opened Encoding
  import opened Merkle

  /** The six fields that `calculate_hash` commits to. */
  datatype Header = Header(
    index: int,
    transactions: seq<Dict>,
    timestamp: real,
    previousHash: string,
    nonce: int,
    merkleRoot: string)

  /** One block as `export_chain` lists it: the header fields plus `hash`. */
  datatype BlockRecord = BlockRecord(
    index: int,
    transactions: seq<Dict>,
    timestamp: real,
    previousHash: string,
    hash: string,
    nonce: int,
    merkleRoot: string)

  function HeaderOf(r: BlockRecord): Header
  {
    Header(r.index, r.transactions, r.timestamp, r.previousHash, r.nonce, r.merkleRoot)
  }

  function WithNonce(h: Header, n: int): Header
  {
    h.(nonce := n)
  }

  /** The dictionary `calculate_hash` serializes: the six hashed fields under
      their Python names, and nothing else. */
  function BlockData(h: Header): (data: Json)
    ensures data.JObject? && |data.fields| == 6 && DistinctKeys(data.fields)
    ensures Get(data.fields, "index") == Some(JInt(h.index))
    ensures Get(data.fields, "transactions") == Some(JArray(Objects(h.transactions)))
    ensures Get(data.fields, "timestamp") == Some(JFloat(h.timestamp))
    ensures Get(data.fields, "previous_hash") == Some(JString(h.previousHash))
    ensures Get(data.fields, "nonce") == Some(JInt(h.nonce))
    ensures Get(data.fields, "merkle_root") == Some(JString(h.merkleRoot))
  {
    var fields := [
      ("index", JInt(h.index)),
      ("transactions", JArray(Objects(h.transactions))),
      ("timestamp", JFloat(h.timestamp)),
      ("previous_hash", JString(h.previousHash)),
      ("nonce", JInt(h.nonce)),
      ("merkle_root", JString(h.merkleRoot))];
    assert DistinctKeys(fields);
    GetEntry(fields, 0);
    GetEntry(fields, 1);
    GetEntry(fields, 2);
    GetEntry(fields, 3);
    GetEntry(fields, 4);
    GetEntry(fields, 5);
    JObject(fields)
  }

  /** The transactions as JSON objects. */
  function Objects(txs: seq<Dict>): seq<Json>
  {
    if txs == [] then [] else [JObject(txs[0])] + Objects(txs[1..])
  }

  /** Distinct transaction lists serialize to distinct JSON arrays. */
  lemma {:induction false} ObjectsInjective(a: seq<Dict>, b: seq<Dict>)
    requires Objects(a) == Objects(b)
    ensures a == b
  {
    if a != [] && b != [] {
      assert Objects(a)[0] == JObject(a[0]) && Objects(b)[0] == JObject(b[0]);
      assert Objects(a)[1..] == Objects(a[1..]) && Objects(b)[1..] == Objects(b[1..]);
      ObjectsInjective(a[1..], b[1..]);
      assert a == [a[0]] + a[1..] && b == [b[0]] + b[1..];
    }
  }

  /** The serialized dictionary determines all six hashed fields: the block
      hash commits to each of them, relative to the serializer and the hash. */
  lemma BlockDataInjective(h1: Header, h2: Header)
    requires BlockData(h1) == BlockData(h2)
    ensures h1 == h2
  {
    ObjectsInjective(h1.transactions, h2.transactions);
  }

  /** SHA-256 of the key-sorted serialization of the header. */
  function BlockHash(p: Primitives, h: Header): string
  {
    p.sha256(p.dumps(BlockData(h), true))
  }

  /** `'0' * d`. */
  function Zeros(d: nat): (z: string)
    ensures |z| == d && forall i :: 0 <= i < d ==> z[i] == '0'
  {
    if d == 0 then "" else Zeros(d - 1) + "0"
  }

  /** `hash.startswith('0' * d)`. */
  predicate MeetsDifficulty(hash: string, d: nat)
  {
    Zeros(d) <= hash
  }

  lemma MeetsDifficultyChars(hash: string, d: nat)
    ensures MeetsDifficulty(hash, d) <==> d <= |hash| && forall i :: 0 <= i < d ==> hash[i] == '0'
  {
    if d <= |hash| && forall i :: 0 <= i < d ==> hash[i] == '0' {
      assert Zeros(d) == hash[..d];
    }
  }

  /** The header a freshly constructed block has: nonce 0 and the Merkle root
      of its transactions. */
  function Candidate(p: Primitives, index: int, txs: seq<Dict>, timestamp: real, previousHash: string): (h: Header)
    ensures h.nonce == 0 && h.merkleRoot == MerkleRoot(p, txs)
  {
    Header(index, txs, timestamp, previousHash, 0, MerkleRoot(p, txs))
  }

  /** Some nonce at or after `h.nonce` gives a hash that meets the difficulty:
      exactly when the unbounded search of the miner ends. */
  ghost predicate Mineable(p: Primitives, d: nat, h: Header)
  {
    exists n: int :: h.nonce <= n && MeetsDifficulty(BlockHash(p, WithNonce(h, n)), d)
  }

  /** An attribute write `block.<name> = value`, one constructor per attribute. */
  datatype Assignment =
    | SetIndex(index: int)
    | SetTransactions(transactions: seq<Dict>)
    | SetTimestamp(timestamp: real)
    | SetPreviousHash(previousHash: string)
    | SetNonce(nonce: int)
    | SetMerkleRoot(merkleRoot: string)
    | SetHash(hash: string)
    | SetLocked(locked: bool)

  /** Result of an attribute write: it happened, or it raised `RuntimeError`. */
  datatype Outcome = Done | Raised(message: string)

  const LockedMessage: string := "Cannot modify locked block"

  /** The guard of `__setattr__`, given the `_locked` attribute (`None` while
      it does not exist yet): only a locked block refuses writes, and it
      still accepts a write of `_locked` itself. */
  function WriteAllowed(lockedAttr: Option<bool>, a: Assignment): (ok: bool)
    ensures lockedAttr == None ==> ok
    ensures lockedAttr == Some(false) ==> ok
    ensures lockedAttr == Some(true) ==> (ok <==> a.SetLocked?)
  {
    !(lockedAttr.Some? && lockedAttr.value && !a.SetLocked?)
  }

  /** The effect of an accepted write on the fields. */
  function Assign(r: BlockRecord, locked: bool, a: Assignment): (BlockRecord, bool)
  {
    match a
    case SetIndex(v) => (r.(index := v), locked)
    case SetTransactions(v) => (r.(transactions := v), locked)
    case SetTimestamp(v) => (r.(timestamp := v), locked)
    case SetPreviousHash(v) => (r.(previousHash := v), locked)
    case SetNonce(v) => (r.(nonce := v), locked)
    case SetMerkleRoot(v) => (r.(merkleRoot := v), locked)
    case SetHash(v) => (r.(hash := v), locked)
    case SetLocked(v) => (r, v)
  }

  class Block {
    var index: int
    var transactions: seq<Dict>
    var timestamp: real
    var previousHash: string
    var nonce: int
    var merkleRoot: string
    var hash: string
    var locked: bool

    /** Builds an unlocked block with nonce 0, its Merkle root, and the hash
        computed over that root.  The writes happen before `_locked` exists,
        so the guard lets each of them through. */
    constructor (p: Primitives, index: int, transactions: seq<Dict>, timestamp: real, previousHash: string)
      ensures Content() == Candidate(p, index, transactions, timestamp, previousHash)
      ensures hash == BlockHash(p, Content())
      ensures !locked
    {
      this.index := index;
      this.transactions := transactions;
      this.timestamp := timestamp;
      this.previousHash := previousHash;
      this.nonce := 0;
      var root := ComputeRoot(p, transactions);
      this.merkleRoot := root;
      this.hash := BlockHash(p, Header(index, transactions, timestamp, previousHash, 0, root));
      this.locked := false;
    }

    function Content(): Header
      reads this
    {
      Header(index, transactions, timestamp, previousHash, nonce, merkleRoot)
    }

    function Record(): BlockRecord
      reads this
    {
      BlockRecord(index, transactions, timestamp, previousHash, hash, nonce, merkleRoot)
    }

    /** `calculate_hash`: the hash of the current field values, the same
        digest chain validation recomputes from the exported record. */
    function CalculateHash(p: Primitives): (h: string)
      reads this
      ensures h == BlockHash(p, HeaderOf(Record()))
    {
      BlockHash(p, Content())
    }

    /** `__setattr__`: a locked block refuses every write except to `_locked`
        and is left as it was; otherwise the one attribute is written. */
    method SetAttr(a: Assignment) returns (r: Outcome)
      modifies this
      ensures r == if WriteAllowed(Some(old(locked)), a) then Done else Raised(LockedMessage)
      ensures r.Raised? ==> unchanged(this)
      ensures r.Done? ==> (Record(), locked) == Assign(old(Record()), old(locked), a)
    {
      if !WriteAllowed(Some(locked), a) {
        return Raised(LockedMessage);
      }
      r := Done;
      match a
      case SetIndex(v) => index := v;
      case SetTransactions(v) => transactions := v;
      case SetTimestamp(v) => timestamp := v;
      case SetPreviousHash(v) => previousHash := v;
      case SetNonce(v) => nonce := v;
      case SetMerkleRoot(v) => merkleRoot := v;
      case SetHash(v) => hash := v;
      case SetLocked(v) => locked := v;
    }

    /** `lock`: sets `_locked`, which the guard always admits. */
    method Lock()
      modifies this
      ensures locked
      ensures Record() == old(Record())
    {
      var _ := SetAttr(SetLocked(true));
    }
  }
}
