/**
 * The selective and full collectors of `readId3`/`streamTag`: the keys a
 * frame can be filed under, the set of still-wanted keys and the result
 * map, and the lookup that answers an empty record for an absent key.
 */
module Collect {
  import opened TextDecoder

  /** A result key: the frame id alone (`TIT2`), or the id followed by
      `:`-separated qualifiers (`TXXX:<descriptor>`,
      `SYLT:<type>:<descriptor>`). */
  datatype Key = Key(id: string, qualifiers: seq<Text>)

  function KeySet(keys: seq<Key>): (r: set<Key>)
    ensures forall k :: k in r <==> k in keys
  {
    set k | k in keys
  }

  /** Selective mode: every candidate key that is still wanted is
      removed from the wanted set and filed with the frame `f`. Keys that
      are already filed keep their earlier frame. */
  function Claim<F>(left: set<Key>, result: map<Key, F>, candidates: seq<Key>, f: F): (r: (set<Key>, map<Key, F>))
    ensures r.0 == left - KeySet(candidates)
    ensures r.1.Keys == result.Keys + (left * KeySet(candidates))
    ensures forall k :: k in r.1 ==> r.1[k] == if k in left && k in candidates then f else result[k]
    decreases |candidates|
  {
    if candidates == [] then (left, result)
    else
      var k := candidates[0];
      if k in left then Claim(left - {k}, result[k := f], candidates[1..], f)
      else Claim(left, result, candidates[1..], f)
  }

  /** Full mode: the frame is filed under every one of its keys,
      replacing whatever an earlier frame left there. */
  function Overwrite<F>(result: map<Key, F>, keys: seq<Key>, f: F): (r: map<Key, F>)
    ensures r.Keys == result.Keys + KeySet(keys)
    ensures forall k :: k in r ==> r[k] == if k in keys then f else result[k]
    decreases |keys|
  {
    if keys == [] then result else Overwrite(result[keys[0] := f], keys[1..], f)
  }

  /** What reading a key of the resolved result gives: the filed frame,
      or an empty record. */
  datatype Entry<F> = Found(frame: F) | EmptyRecord

  function Lookup<F>(result: map<Key, F>, k: Key): (r: Entry<F>)
    ensures r.EmptyRecord? <==> k !in result
    ensures r.Found? ==> r.frame == result[k]
  {
    if k in result then Found(result[k]) else EmptyRecord
  }
}
