/**
 Python's insertion-ordered `dict` with string keys: the keys in insertion
 order, each once, and the mapping from key to value.
 */
module Dicts {
  import opened Seqs

  datatype DictRep<V> = DictRep(keys: seq<string>, vals: map<string, V>)

  /** The keys are listed once each, and they are exactly the mapped keys. */
  ghost predicate WellFormed<V>(d: DictRep<V>)
  {
    Distinct(d.keys) && forall k :: k in d.vals <==> k in d.keys
  }

  type Dict<V> = d: DictRep<V> | WellFormed(d) witness DictRep([], map[])

  /** `{}`. */
  function EmptyDict<V>(): Dict<V>
  {
    DictRep([], map[])
  }

  /** `d[k] = v`: a new key goes to the end of the key order, an existing key keeps its place. */
  function Store<V>(d: Dict<V>, k: string, v: V): (r: Dict<V>)
    ensures r.vals == d.vals[k := v]
    ensures r.keys == if k in d.vals then d.keys else d.keys + [k]
  {
    if k in d.vals then DictRep(d.keys, d.vals[k := v])
    else
      assert Distinct(d.keys + [k]) by {
        assert k !in d.keys;
      }
      DictRep(d.keys + [k], d.vals[k := v])
  }

  /** The first components of `ps` are pairwise different. */
  predicate DistinctFirsts<V>(ps: seq<(string, V)>)
  {
    forall i, j | 0 <= i < j < |ps| :: ps[i].0 != ps[j].0
  }

  /** `dict(ps)`: the pairs stored one after the other. */
  function FromPairs<V>(ps: seq<(string, V)>): Dict<V>
  {
    if |ps| == 0 then EmptyDict()
    else
      var last := ps[|ps| - 1];
      Store(FromPairs(ps[..|ps| - 1]), last.0, last.1)
  }

  /** Without repeated keys, `dict(ps)` lists the keys of `ps` in order and maps each to its value. */
  lemma {:induction false} FromDistinctPairs<V>(ps: seq<(string, V)>)
    requires DistinctFirsts(ps)
    ensures |FromPairs(ps).keys| == |ps|
    ensures forall i | 0 <= i < |ps| :: FromPairs(ps).keys[i] == ps[i].0 && FromPairs(ps).vals[ps[i].0] == ps[i].1
  {
    if |ps| > 0 {
      var init := ps[..|ps| - 1];
      var last := ps[|ps| - 1];
      FromDistinctPairs(init);
      var d0 := FromPairs(init);
      assert last.0 !in d0.vals by {
        forall i | 0 <= i < |init| ensures d0.keys[i] != last.0 {
          assert init[i] == ps[i];
        }
      }
      var d := FromPairs(ps);
      assert d.keys == d0.keys + [last.0];
      forall i | 0 <= i < |ps| ensures d.keys[i] == ps[i].0 && d.vals[ps[i].0] == ps[i].1 {
        if i < |init| {
          assert init[i] == ps[i];
        }
      }
    }
  }
}
