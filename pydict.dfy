/**
 * A Python `dict` with string keys, as the sequence of its items in insertion
 * order. `d[k] = v` on a key already present replaces the value where it
 * stands; on a new key it appends the item at the end.
 */
module PyDict {
  import opened Wrappers

  datatype Dict<V> = Dict(items: seq<(string, V)>)

  function Empty<V>(): Dict<V> {
    Dict([])
  }

  /** The keys in iteration order. */
  function Keys<V>(d: Dict<V>): (ks: seq<string>)
    ensures |ks| == |d.items|
    decreases |d.items|
  {
    if d.items == [] then [] else [d.items[0].0] + Keys(Tail(d))
  }

  /** Key `i` is the key of item `i`. */
  lemma {:induction false} KeysIndex<V>(d: Dict<V>, i: nat)
    requires i < |d.items|
    ensures Keys(d)[i] == d.items[i].0
    decreases i
  {
    if i > 0 {
      KeysIndex(Tail(d), i - 1);
    }
  }

  predicate UniqueKeys<V>(d: Dict<V>) {
    var ks := Keys(d);
    forall i, j :: 0 <= i < j < |ks| ==> ks[i] != ks[j]
  }

  function Tail<V>(d: Dict<V>): Dict<V>
    requires d.items != []
  {
    Dict(d.items[1..])
  }

  /** `d.get(k)` */
  function Get<V>(d: Dict<V>, k: string): Option<V>
    decreases |d.items|
  {
    if d.items == [] then None
    else if d.items[0].0 == k then Some(d.items[0].1)
    else Get(Tail(d), k)
  }

  /** `d.get(k)` finds a value exactly when `k` is one of the keys. */
  lemma {:induction false} GetKeys<V>(d: Dict<V>, k: string)
    ensures Get(d, k).None? <==> k !in Keys(d)
    decreases |d.items|
  {
    if d.items != [] {
      GetKeys(Tail(d), k);
    }
  }

  /** `d[k] = v` */
  function Set<V>(d: Dict<V>, k: string, v: V): Dict<V>
    decreases |d.items|
  {
    if d.items == [] then Dict([(k, v)])
    else if d.items[0].0 == k then Dict([(k, v)] + d.items[1..])
    else Dict([d.items[0]] + Set(Tail(d), k, v).items)
  }

  /** `d[k] = v` keeps a key already present where it stands, and appends a new one. */
  lemma {:induction false} SetKeys<V>(d: Dict<V>, k: string, v: V)
    ensures k in Keys(d) ==> Keys(Set(d, k, v)) == Keys(d)
    ensures k !in Keys(d) ==> Keys(Set(d, k, v)) == Keys(d) + [k]
    decreases |d.items|
  {
    if d.items != [] {
      var r := Set(d, k, v);
      if d.items[0].0 == k {
        assert Tail(r) == Tail(d);
      } else {
        SetKeys(Tail(d), k, v);
        assert Tail(r) == Set(Tail(d), k, v);
      }
    }
  }

  /** After `d[k] = v`, `d[k]` is `v` and every other key keeps its value. */
  lemma {:induction false} GetSet<V>(d: Dict<V>, k: string, v: V, k': string)
    ensures Get(Set(d, k, v), k') == if k' == k then Some(v) else Get(d, k')
    decreases |d.items|
  {
    if d.items != [] && d.items[0].0 != k {
      GetSet(Tail(d), k, v, k');
      assert Tail(Set(d, k, v)) == Set(Tail(d), k, v);
    }
  }

  /** Assignment keeps keys unique. */
  lemma SetUnique<V>(d: Dict<V>, k: string, v: V)
    requires UniqueKeys(d)
    ensures UniqueKeys(Set(d, k, v))
  {
    var ks, ks' := Keys(d), Keys(Set(d, k, v));
    SetKeys(d, k, v);
    if k !in ks {
      forall i, j | 0 <= i < j < |ks'| ensures ks'[i] != ks'[j] {
        if j == |ks| { assert ks'[i] == ks[i]; }
      }
    }
  }

  /** A value found by `Get` is the value of an item of the dict. */
  lemma {:induction false} GetIsItem<V>(d: Dict<V>, k: string)
    requires Get(d, k).Some?
    ensures (k, Get(d, k).value) in d.items
    decreases |d.items|
  {
    if d.items[0].0 != k {
      GetIsItem(Tail(d), k);
    }
  }
}
