/** JavaScript's `Map` as an association list in insertion order: `set` on a
    new key appends an entry, `set` on a present key replaces the value in
    place, and `values()` lists the values in the order the keys first arrived. */
module InsertionMap {
  import opened Wrappers
  import Collections

  datatype Entry<K, V> = Entry(key: K, value: V)

  function Keys<K, V>(m: seq<Entry<K, V>>): (ks: seq<K>)
    ensures |ks| == |m|
    ensures forall i :: 0 <= i < |m| ==> ks[i] == m[i].key
  {
    if m == [] then [] else [m[0].key] + Keys(m[1..])
  }

  /** `Array.from(map.values())`. */
  function Values<K, V>(m: seq<Entry<K, V>>): (vs: seq<V>)
    ensures |vs| == |m|
    ensures forall i :: 0 <= i < |m| ==> vs[i] == m[i].value
  {
    if m == [] then [] else [m[0].value] + Values(m[1..])
  }

  /** A well-formed map holds each key at most once. */
  predicate Valid<K(==), V>(m: seq<Entry<K, V>>) {
    Collections.NoDup(Keys(m))
  }

  /** `map.get(k)`, with `None` for a missing key. */
  function Get<K(==), V>(m: seq<Entry<K, V>>, k: K): (r: Option<V>)
    ensures r.Some? <==> k in Keys(m)
    ensures r.Some? ==> Entry(k, r.value) in m
  {
    if m == [] then None
    else if m[0].key == k then Some(m[0].value)
    else
      assert Keys(m) == [m[0].key] + Keys(m[1..]);
      Get(m[1..], k)
  }

  /** `map.set(k, v)`: a new key goes to the end, a present key keeps its place. */
  function Set<K(==,!new), V>(m: seq<Entry<K, V>>, k: K, v: V): (r: seq<Entry<K, V>>)
    ensures Keys(r) == Collections.Add(Keys(m), k)
  {
    if m == [] then [Entry(k, v)]
    else
      KeysCons(m[0], m[1..]);
      assert [m[0]] + m[1..] == m;
      if m[0].key == k then
        KeysCons(Entry(k, v), m[1..]);
        [Entry(k, v)] + m[1..]
      else
        var rest := Set(m[1..], k, v);
        KeysCons(m[0], rest);
        Collections.AddCons(m[0].key, Keys(m[1..]), k);
        [m[0]] + rest
  }

  /** After `map.set(k, v)`, `k` holds `v` and every other key holds what it held. */
  lemma {:induction false} SetGet<K(!new), V>(m: seq<Entry<K, V>>, k: K, v: V, k': K)
    ensures Get(Set(m, k, v), k') == if k' == k then Some(v) else Get(m, k')
  {
    if m != [] {
      assert [m[0]] + m[1..] == m;
      if m[0].key == k {
        GetCons(Entry(k, v), m[1..], k');
        GetCons(m[0], m[1..], k');
      } else {
        SetGet(m[1..], k, v, k');
        GetCons(m[0], Set(m[1..], k, v), k');
        GetCons(m[0], m[1..], k');
      }
    }
  }

  lemma KeysCons<K, V>(e: Entry<K, V>, m: seq<Entry<K, V>>)
    ensures Keys([e] + m) == [e.key] + Keys(m)
  {
    assert ([e] + m)[1..] == m;
  }

  lemma GetCons<K, V>(e: Entry<K, V>, m: seq<Entry<K, V>>, k: K)
    ensures Get([e] + m, k) == if e.key == k then Some(e.value) else Get(m, k)
  {
    assert ([e] + m)[1..] == m;
  }

  /** The effect of calling `set` once per entry of `es`, in order. */
  function SetAll<K(==,!new), V>(m: seq<Entry<K, V>>, es: seq<Entry<K, V>>): (r: seq<Entry<K, V>>)
    ensures Keys(r) == Collections.AddAll(Keys(m), Keys(es))
    ensures Valid(m) ==> Valid(r)
    decreases es
  {
    if es == [] then m
    else
      assert Keys(es)[1..] == Keys(es[1..]);
      SetAll(Set(m, es[0].key, es[0].value), es[1..])
  }

  /** The value of the last entry of `es` whose key is `k`. */
  ghost function LastValue<K, V>(es: seq<Entry<K, V>>, k: K): (v: V)
    requires k in Keys(es)
    ensures exists i :: 0 <= i < |es| && es[i] == Entry(k, v) && k !in Keys(es[i + 1..])
  {
    if k in Keys(es[1..]) then
      var v := LastValue(es[1..], k);
      var i :| 0 <= i < |es[1..]| && es[1..][i] == Entry(k, v) && k !in Keys(es[1..][i + 1..]);
      assert es[1..][i + 1..] == es[i + 2..];
      v
    else
      assert es[1..] == es[0 + 1..];
      es[0].value
  }

  /** After a run of `set` calls, a key holds the value of its last `set`,
      and a key that was never set holds what it held before. */
  lemma {:induction false} SetAllGet<K(!new), V>(m: seq<Entry<K, V>>, es: seq<Entry<K, V>>, k: K)
    ensures Get(SetAll(m, es), k) == if k in Keys(es) then Some(LastValue(es, k)) else Get(m, k)
    decreases es
  {
    if es != [] {
      assert Keys(es) == [es[0].key] + Keys(es[1..]);
      SetAllGet(Set(m, es[0].key, es[0].value), es[1..], k);
      SetGet(m, es[0].key, es[0].value, k);
    }
  }

  /** Running `set` calls from the empty map lists each key once, in the order
      of its first `set`. */
  lemma SetAllFromEmpty<K(!new), V>(es: seq<Entry<K, V>>)
    ensures Valid(SetAll([], es))
    ensures Keys(SetAll([], es)) == Collections.Dedup(Keys(es))
  {
    var empty: seq<Entry<K, V>> := [];
    assert Keys(empty) == [];
  }
}
