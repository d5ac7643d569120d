/** The Merkle commitment of a block: the ordered transactions are hashed to
    leaves, and levels are folded pairwise, left to right, until one digest
    remains; an unpaired last entry is paired with itself. */
module Merkle {
  import opened Encoding

  /** The sentinel hashed for a block without transactions. */
  const EmptySentinel: string := "empty"

  /** Leaf digest: SHA-256 of `json.dumps(tx)` (keys in insertion order). */
  function LeafHash(p: Primitives, tx: Dict): string
  {
    p.sha256(p.dumps(JObject(tx), false))
  }

  /** The leaf digests of `txs`, one per transaction, in order. */
  function LeafHashes(p: Primitives, txs: seq<Dict>): (hs: seq<string>)
    ensures |hs| == |txs|
    ensures forall i :: 0 <= i < |txs| ==> hs[i] == LeafHash(p, txs[i])
  {
    if txs == [] then [] else [LeafHash(p, txs[0])] + LeafHashes(p, txs[1..])
  }

  /** Parent digest of a left and a right child: SHA-256 of their concatenation. */
  function PairHash(p: Primitives, left: string, right: string): string
  {
    p.sha256(left + right)
  }

  /** Entry `k` of the level above `hs`: the pair starting at `2k`, or the
      last entry paired with itself when it has no right neighbour. */
  function ParentAt(p: Primitives, hs: seq<string>, k: nat): string
    requires 2 * k < |hs|
  {
    PairHash(p, hs[2 * k], if 2 * k + 1 < |hs| then hs[2 * k + 1] else hs[2 * k])
  }

  /** One round of folding: the level above `hs`. */
  function NextLevel(p: Primitives, hs: seq<string>): (up: seq<string>)
    ensures |up| == (|hs| + 1) / 2
    decreases |hs|
  {
    if |hs| == 0 then []
    else if |hs| == 1 then [PairHash(p, hs[0], hs[0])]
    else [PairHash(p, hs[0], hs[1])] + NextLevel(p, hs[2..])
  }

  /** Folds levels until exactly one digest remains. */
  function Fold(p: Primitives, hs: seq<string>): string
    requires |hs| >= 1
    decreases |hs|
  {
    if |hs| == 1 then hs[0] else Fold(p, NextLevel(p, hs))
  }

  /** The Merkle root of an ordered transaction list. */
  function MerkleRoot(p: Primitives, txs: seq<Dict>): (root: string)
    ensures txs == [] ==> root == p.sha256(EmptySentinel)
    ensures |txs| == 1 ==> root == LeafHash(p, txs[0])
  {
    if txs == [] then p.sha256(EmptySentinel) else Fold(p, LeafHashes(p, txs))
  }

  /** Every entry of the level above `hs` is the digest of the pair it covers. */
  lemma {:induction false} NextLevelAt(p: Primitives, hs: seq<string>, k: nat)
    requires 2 * k < |hs|
    ensures k < |NextLevel(p, hs)| && NextLevel(p, hs)[k] == ParentAt(p, hs, k)
    decreases |hs|
  {
    if |hs| >= 2 && k > 0 {
      NextLevelAt(p, hs[2..], k - 1);
      assert hs[2..][2 * (k - 1)] == hs[2 * k];
    }
  }

  /** The loop of the source: rebuild the list of digests level by level. */
  method ComputeRoot(p: Primitives, txs: seq<Dict>) returns (root: string)
    ensures root == MerkleRoot(p, txs)
  {
    if txs == [] {
      return p.sha256(EmptySentinel);
    }
    var hashList := LeafHashes(p, txs);
    while |hashList| > 1
      invariant |hashList| >= 1
      invariant Fold(p, hashList) == MerkleRoot(p, txs)
      decreases |hashList|
    {
      var tempList: seq<string> := [];
      var i := 0;
      while i < |hashList|
        invariant 0 <= i <= |hashList| + 1 && i % 2 == 0
        invariant |tempList| == i / 2
        invariant forall k :: 0 <= k < |tempList| ==> tempList[k] == ParentAt(p, hashList, k)
      {
        var combined := if i + 1 < |hashList| then hashList[i] + hashList[i + 1]
                        else hashList[i] + hashList[i];
        tempList := tempList + [p.sha256(combined)];
        i := i + 2;
      }
      forall k | 0 <= k < |tempList|
        ensures tempList[k] == NextLevel(p, hashList)[k]
      {
        NextLevelAt(p, hashList, k);
      }
      assert tempList == NextLevel(p, hashList);
      hashList := tempList;
    }
    root := hashList[0];
  }
}
