/** JSON values, Python-style ordered dictionaries, and the two primitives the
    ledger relies on but does not define: SHA-256 (as a hex digest of the UTF-8
    encoding) and `json.dumps`.  Both primitives are left uninterpreted by
    carrying them as values of type `Primitives`; every property of the ledger
    is stated relative to them. */
module Encoding {

  datatype Option<T> = None | Some(value: T)

  /** A JSON value as `json.dumps` sees it.  Python ints and floats are kept
      apart because they serialize differently. */
  datatype Json =
    | JNull
    | JBool(b: bool)
    | JInt(i: int)
    | JFloat(r: real)
    | JString(s: string)
    | JArray(items: seq<Json>)
    | JObject(fields: Dict)

  /** A Python `dict` with string keys: its entries in insertion order.
      Python never holds two entries with the same key (see `DistinctKeys`). */
  type Dict = seq<(string, Json)>

  /** The hash function and the serializer.  `dumps(v, true)` is
      `json.dumps(v, sort_keys=True)`, `dumps(v, false)` is `json.dumps(v)`. */
  datatype Primitives = Primitives(sha256: string -> string, dumps: (Json, bool) -> string)

  predicate DistinctKeys(d: Dict)
  {
    forall i, j :: 0 <= i < j < |d| ==> d[i].0 != d[j].0
  }

  /** `d.get(k)`: the value stored under `k`, or `None` when `k` is absent. */
  function Get(d: Dict, k: string): Option<Json>
  {
    if d == [] then None
    else if d[0].0 == k then Some(d[0].1)
    else Get(d[1..], k)
  }

  /** `k in d`. */
  predicate HasKey(d: Dict, k: string)
  {
    Get(d, k).Some?
  }

  /** `Get` finds a key exactly when some entry has it, and then returns the
      value of the first such entry. */
  lemma {:induction false} GetSpec(d: Dict, k: string)
    ensures HasKey(d, k) <==> exists i :: 0 <= i < |d| && d[i].0 == k
    ensures HasKey(d, k) ==>
      exists i :: 0 <= i < |d| && d[i] == (k, Get(d, k).value) && (forall j :: 0 <= j < i ==> d[j].0 != k)
  {
    if d != [] && d[0].0 != k {
      GetSpec(d[1..], k);
      if exists i :: 0 <= i < |d| && d[i].0 == k {
        var i :| 0 <= i < |d| && d[i].0 == k;
        assert d[1..][i - 1].0 == k;
      }
      if HasKey(d, k) {
        var i :| 0 <= i < |d[1..]| && d[1..][i] == (k, Get(d, k).value) && (forall j :: 0 <= j < i ==> d[1..][j].0 != k);
        assert d[i + 1] == (k, Get(d, k).value);
        forall j | 0 <= j < i + 1
          ensures d[j].0 != k
        {
          if j > 0 {
            assert d[j] == d[1..][j - 1];
          }
        }
      }
    }
  }

  /** In a dictionary with distinct keys, looking up the key of any entry
      returns that entry's value. */
  lemma {:induction false} GetEntry(d: Dict, i: int)
    requires DistinctKeys(d) && 0 <= i < |d|
    ensures Get(d, d[i].0) == Some(d[i].1)
  {
    if i > 0 {
      assert d[1..][i - 1] == d[i];
      GetEntry(d[1..], i - 1);
    }
  }

  /** `d[k] = v` on a copy of `d`: an existing key keeps its position and gets
      the new value; a new key is appended at the end. */
  function Put(d: Dict, k: string, v: Json): (r: Dict)
    ensures Get(r, k) == Some(v)
    ensures forall k' :: k' != k ==> Get(r, k') == Get(d, k')
    ensures HasKey(d, k) ==> |r| == |d|
    ensures !HasKey(d, k) ==> r == d + [(k, v)]
    ensures forall i :: 0 <= i < |d| ==> r[i].0 == d[i].0
  {
    if d == [] then [(k, v)]
    else if d[0].0 == k then [(k, v)] + d[1..]
    else
      var rest := Put(d[1..], k, v);
      var r := [d[0]] + rest;
      assert r[1..] == rest;
      assert forall i :: 1 <= i < |r| ==> r[i] == rest[i - 1];
      assert !HasKey(d, k) ==> r == d + [(k, v)] by {
        if !HasKey(d, k) {
          assert d == [d[0]] + d[1..];
        }
      }
      r
  }

  /** Writing a key never makes Python's keys-are-distinct invariant fail. */
  lemma PutKeepsKeysDistinct(d: Dict, k: string, v: Json)
    requires DistinctKeys(d)
    ensures DistinctKeys(Put(d, k, v))
  {
    var r := Put(d, k, v);
    if !HasKey(d, k) {
      GetSpec(d, k);
    }
    forall i, j | 0 <= i < j < |r|
      ensures r[i].0 != r[j].0
    {
      if j == |d| {
        assert r[j] == (k, v) && d[i].0 == r[i].0;
      }
    }
  }
}
