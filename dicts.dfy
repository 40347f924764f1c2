/** Python's `dict` as the source uses it: integer keys kept in insertion
    order, a value per key; assigning to a present key keeps its position. */
module Dicts {
  import opened Seqs

  datatype Dict<V> = Dict(keys: seq<int>, entries: map<int, V>)

  /** Every key occurs once in the order, and the order lists exactly the keys. */
  predicate Valid<V>(d: Dict<V>) {
    Distinct(d.keys)
    && (forall k :: k in d.entries ==> k in d.keys)
    && (forall i :: 0 <= i < |d.keys| ==> d.keys[i] in d.entries)
  }

  function Empty<V>(): (r: Dict<V>)
    ensures Valid(r) && r.keys == []
  {
    Dict([], map[])
  }

  /** `d[k] = v` */
  function Put<V>(d: Dict<V>, k: int, v: V): (r: Dict<V>)
    ensures r.entries == d.entries[k := v]
    ensures Valid(d) ==> Valid(r)
    ensures k in d.entries ==> r.keys == d.keys
    ensures k !in d.entries ==> r.keys == d.keys + [k]
  {
    if k in d.entries then Dict(d.keys, d.entries[k := v])
    else
      var r := Dict(d.keys + [k], d.entries[k := v]);
      assert Valid(d) ==> Valid(r) by {
        if Valid(d) {
          forall i, j | 0 <= i < j < |r.keys| ensures r.keys[i] != r.keys[j] {
            if j == |d.keys| { assert r.keys[i] == d.keys[i] && d.keys[i] in d.keys; }
          }
          forall i | 0 <= i < |r.keys| ensures r.keys[i] in r.entries {
            if i < |d.keys| { assert r.keys[i] == d.keys[i]; }
          }
        }
      }
      r
  }

  /** `d.values()`, in key order. */
  function Values<V>(d: Dict<V>): (r: seq<V>)
    requires Valid(d)
    ensures |r| == |d.keys|
    ensures forall i :: 0 <= i < |r| ==> r[i] == d.entries[d.keys[i]]
  {
    seq(|d.keys|, i requires 0 <= i < |d.keys| => d.entries[d.keys[i]])
  }

  /** `len(d)` */
  function Size<V>(d: Dict<V>): (n: nat)
    ensures Valid(d) ==> n == |d.entries.Keys|
  {
    if Valid(d) then
      DistinctCard(d.keys);
      var ks := set k | k in d.keys;
      forall k | k in ks ensures k in d.entries.Keys {
        var i :| 0 <= i < |d.keys| && d.keys[i] == k;
      }
      forall k | k in d.entries.Keys ensures k in ks {
        assert k in d.keys;
      }
      assert d.entries.Keys == ks;
      |d.keys|
    else |d.keys|
  }

  lemma {:induction false} DistinctCard(s: seq<int>)
    requires Distinct(s)
    ensures |set k | k in s| == |s|
    decreases |s|
  {
    if s != [] {
      var init := s[..|s| - 1];
      assert Distinct(init) by {
        forall i, j | 0 <= i < j < |init| ensures init[i] != init[j] {
          assert init[i] == s[i] && init[j] == s[j];
        }
      }
      DistinctCard(init);
      assert s == init + [s[|s| - 1]];
      assert (set k | k in s) == (set k | k in init) + {s[|s| - 1]};
      assert s[|s| - 1] !in init;
    }
  }
}
