/**
 * The JavaScript `Map` the server keeps its connections in: an
 * insertion-ordered association list with unique keys. `set` on a key that
 * is already present replaces the value in place (the entry keeps its
 * position); `set` on a new key appends; `delete` removes the one entry;
 * `values()` yields the values in entry order.
 */
module ConnectionMap {
  import opened Wrappers

  datatype Entry<K, V> = Entry(key: K, value: V)

  type JsMap<K, V> = seq<Entry<K, V>>

  /** No key occurs twice: what `Map` guarantees by construction. */
  predicate KeysUnique<K(==), V>(m: JsMap<K, V>)
  {
    forall i, j :: 0 <= i < j < |m| ==> m[i].key != m[j].key
  }

  predicate HasKey<K(==), V>(m: JsMap<K, V>, k: K)
  {
    exists i :: 0 <= i < |m| && m[i].key == k
  }

  /** Position of the entry for `k`, if any. */
  function IndexOf<K(==), V>(m: JsMap<K, V>, k: K): (r: Option<nat>)
    ensures r.Some? ==> r.value < |m| && m[r.value].key == k
    ensures r.Some? ==> forall j :: 0 <= j < r.value ==> m[j].key != k
    ensures r.None? <==> !HasKey(m, k)
  {
    if m == [] then None
    else if m[0].key == k then Some(0)
    else
      match IndexOf(m[1..], k)
      case None =>
        assert forall j :: 1 <= j < |m| ==> m[j] == m[1..][j - 1];
        None
      case Some(i) => Some(i + 1)
  }

  /** `m.get(k)`, with `None` for a key that is not there. */
  function Get<K(==), V>(m: JsMap<K, V>, k: K): (r: Option<V>)
    ensures r.Some? <==> HasKey(m, k)
    ensures r.Some? ==> Entry(k, r.value) in m
  {
    match IndexOf(m, k)
    case None => None
    case Some(i) => Some(m[i].value)
  }

  /** `m.set(k, v)`. */
  function Set<K(==), V>(m: JsMap<K, V>, k: K, v: V): (r: JsMap<K, V>)
    ensures |r| == if HasKey(m, k) then |m| else |m| + 1
    ensures forall i :: 0 <= i < |m| && m[i].key != k ==> r[i] == m[i]
  {
    match IndexOf(m, k)
    case Some(i) => m[i := Entry(k, v)]
    case None => m + [Entry(k, v)]
  }

  /** `m.delete(k)`. */
  function Delete<K(==), V>(m: JsMap<K, V>, k: K): (r: JsMap<K, V>)
    ensures |r| == if HasKey(m, k) then |m| - 1 else |m|
    ensures multiset(r) <= multiset(m)
  {
    match IndexOf(m, k)
    case Some(i) =>
      assert m == m[..i] + [m[i]] + m[i + 1..];
      m[..i] + m[i + 1..]
    case None => m
  }

  /** `Array.from(m.values())`. */
  function Values<K, V>(m: JsMap<K, V>): seq<V>
  {
    seq(|m|, i requires 0 <= i < |m| => m[i].value)
  }

  /** The keys of the entries, in entry order. */
  function Keys<K, V>(m: JsMap<K, V>): seq<K>
  {
    seq(|m|, i requires 0 <= i < |m| => m[i].key)
  }

  /** After `set(k, v)`, `get(k)` is `v`. */
  lemma SetGet<K, V>(m: JsMap<K, V>, k: K, v: V)
    ensures Get(Set(m, k, v), k) == Some(v)
  {
    var m' := Set(m, k, v);
    match IndexOf(m, k)
    case Some(i) =>
      assert m'[i].key == k;
      assert IndexOf(m', k) == Some(i) by {
        assert forall j :: 0 <= j < i ==> m'[j] == m[j];
      }
    case None =>
      assert m'[|m|].key == k;
      assert IndexOf(m', k) == Some(|m|) by {
        assert forall j :: 0 <= j < |m| ==> m'[j] == m[j];
      }
  }

  /** With unique keys, `values()` lists at each position what `get` answers for that entry's key. */
  lemma ValuesAgreeWithGet<K, V>(m: JsMap<K, V>)
    requires KeysUnique(m)
    ensures forall i :: 0 <= i < |m| ==> Get(m, m[i].key) == Some(Values(m)[i])
  {
    forall i | 0 <= i < |m| ensures Get(m, m[i].key) == Some(Values(m)[i]) {
      assert IndexOf(m, m[i].key) == Some(i);
    }
  }

  /** `set(k, v)` does not change what any other key maps to. */
  lemma SetOther<K, V>(m: JsMap<K, V>, k: K, v: V, k': K)
    requires k' != k
    ensures Get(Set(m, k, v), k') == Get(m, k')
  {
    var m' := Set(m, k, v);
    assert |m| <= |m'|;
    assert forall j :: 0 <= j < |m'| && m'[j].key == k' ==> j < |m| && m'[j] == m[j];
    assert forall j :: 0 <= j < |m| && m[j].key == k' ==> m'[j] == m[j];
    match IndexOf(m, k')
    case Some(i) =>
      assert IndexOf(m', k') == Some(i);
    case None =>
      assert IndexOf(m', k') == None;
  }

  /** `set` keeps the keys unique. */
  lemma SetKeepsUnique<K, V>(m: JsMap<K, V>, k: K, v: V)
    requires KeysUnique(m)
    ensures KeysUnique(Set(m, k, v))
  {
    var m' := Set(m, k, v);
    assert Keys(m') == if HasKey(m, k) then Keys(m) else Keys(m) + [k] by {
      SetKeys(m, k, v);
    }
    forall i, j | 0 <= i < j < |m'| ensures m'[i].key != m'[j].key {
      assert Keys(m')[i] == m'[i].key && Keys(m')[j] == m'[j].key;
    }
  }

  /**
   * `set` on a present key keeps the entry order; on a new key it appends
   * the key at the end.
   */
  lemma SetKeys<K, V>(m: JsMap<K, V>, k: K, v: V)
    ensures Keys(Set(m, k, v)) == if HasKey(m, k) then Keys(m) else Keys(m) + [k]
  {
  }

  /** After `delete(k)`, `get(k)` finds nothing. */
  lemma DeleteGet<K, V>(m: JsMap<K, V>, k: K)
    requires KeysUnique(m)
    ensures Get(Delete(m, k), k) == None
  {
    var m' := Delete(m, k);
    match IndexOf(m, k)
    case None =>
    case Some(i) =>
      assert forall j :: 0 <= j < |m'| ==> m'[j] == if j < i then m[j] else m[j + 1];
      assert !HasKey(m', k);
  }

  /** `delete(k)` does not change what any other key maps to. */
  lemma DeleteOther<K, V>(m: JsMap<K, V>, k: K, k': K)
    requires k' != k
    ensures Get(Delete(m, k), k') == Get(m, k')
  {
    match IndexOf(m, k)
    case None =>
    case Some(i) =>
      assert Delete(m, k) == m[..i] + m[i + 1..];
      RemoveAtOther(m, i, k');
  }

  /** Taking out an entry with another key does not change what `k'` maps to. */
  lemma RemoveAtOther<K, V>(m: JsMap<K, V>, i: nat, k': K)
    requires i < |m| && m[i].key != k'
    ensures Get(m[..i] + m[i + 1..], k') == Get(m, k')
  {
    var m' := m[..i] + m[i + 1..];
    assert forall j :: 0 <= j < |m'| ==> m'[j] == if j < i then m[j] else m[j + 1];
    match IndexOf(m, k')
    case None =>
      assert !HasKey(m', k');
    case Some(i') =>
      var n := if i' < i then i' else i' - 1;
      assert m'[n] == m[i'];
      IndexOfIs(m', k', n);
  }

  /** The first entry with key `k` is where `IndexOf` finds it. */
  lemma IndexOfIs<K, V>(m: JsMap<K, V>, k: K, n: nat)
    requires n < |m| && m[n].key == k
    requires forall j :: 0 <= j < n ==> m[j].key != k
    ensures IndexOf(m, k) == Some(n)
  {
  }

  /** `delete` keeps the keys unique. */
  lemma DeleteKeepsUnique<K, V>(m: JsMap<K, V>, k: K)
    requires KeysUnique(m)
    ensures KeysUnique(Delete(m, k))
  {
    var m' := Delete(m, k);
    match IndexOf(m, k)
    case None =>
    case Some(i) =>
      assert forall j :: 0 <= j < |m'| ==> m'[j] == if j < i then m[j] else m[j + 1];
  }

  /** `delete` takes out the first entry with the key and keeps the others in their order. */
  lemma DeleteKeys<K, V>(m: JsMap<K, V>, k: K)
    ensures IndexOf(m, k).Some? ==>
      var i := IndexOf(m, k).value;
      Keys(Delete(m, k)) == Keys(m)[..i] + Keys(m)[i + 1..]
  {
  }

  /** `delete` of a key that is not there leaves the map as it was. */
  lemma DeleteAbsent<K, V>(m: JsMap<K, V>, k: K)
    requires !HasKey(m, k)
    ensures Delete(m, k) == m
  {
  }
}
