/** An insertion-ordered map from text keys, the way `LinkedHashMap` behaves: a new key
    goes to the end, an existing key keeps its place and only its value changes. */
module LinkedMap {
  import opened Results

  datatype Binding<V> = Binding(key: string, value: V)

  type Linked<V> = seq<Binding<V>>

  /** The keys in iteration (insertion) order. */
  function Keys<V>(m: Linked<V>): (ks: seq<string>)
    ensures |ks| == |m|
    ensures forall i :: 0 <= i < |m| ==> ks[i] == m[i].key
  {
    seq(|m|, i requires 0 <= i < |m| => m[i].key)
  }

  predicate UniqueKeys<V>(m: Linked<V>) {
    forall i, j :: 0 <= i < j < |m| ==> m[i].key != m[j].key
  }

  /** The position of `k`, or -1 when it is absent. */
  function Find<V>(m: Linked<V>, k: string): (r: int)
    ensures -1 <= r < |m|
    ensures r >= 0 ==> m[r].key == k
    ensures forall i :: 0 <= i < |m| && m[i].key == k ==> 0 <= r <= i
    decreases |m|
  {
    if m == [] then -1
    else if m[0].key == k then 0
    else
      var r := Find(m[1..], k);
      assert forall i :: 1 <= i < |m| ==> m[1..][i - 1] == m[i];
      if r < 0 then -1 else r + 1
  }

  /** `map.get(k)`: `None` plays Java's `null`. */
  function Get<V>(m: Linked<V>, k: string): (r: Option<V>)
    ensures r.None? <==> forall i :: 0 <= i < |m| ==> m[i].key != k
    ensures r.Some? ==> exists i :: 0 <= i < |m| && m[i] == Binding(k, r.value)
  {
    var i := Find(m, k);
    if i >= 0 then Some(m[i].value) else None
  }

  /** `map.put(k, v)` */
  function Put<V>(m: Linked<V>, k: string, v: V): (r: Linked<V>)
    ensures Get(r, k) == Some(v)
    ensures forall k' :: k' != k ==> Get(r, k') == Get(m, k')
    ensures Keys(r) == if Get(m, k).Some? then Keys(m) else Keys(m) + [k]
    ensures UniqueKeys(m) ==> UniqueKeys(r)
  {
    var i := Find(m, k);
    if i >= 0 then
      Replaced(m, i, k, v);
      m[i := Binding(k, v)]
    else
      Appended(m, k, v);
      m + [Binding(k, v)]
  }

  /** `Find` is pinned down by its contract: the first position holding the key. */
  lemma {:induction false} FindDetermined<V>(m: Linked<V>, k: string, p: int)
    requires -1 <= p < |m|
    requires p >= 0 ==> m[p].key == k
    requires forall j :: 0 <= j < |m| && m[j].key == k ==> 0 <= p <= j
    ensures Find(m, k) == p
  {
  }

  /** Overwriting the binding of a present key. */
  lemma {:induction false} Replaced<V>(m: Linked<V>, i: int, k: string, v: V)
    requires 0 <= i < |m| && i == Find(m, k)
    ensures Get(m[i := Binding(k, v)], k) == Some(v)
    ensures forall k' :: k' != k ==> Get(m[i := Binding(k, v)], k') == Get(m, k')
    ensures Keys(m[i := Binding(k, v)]) == Keys(m)
    ensures UniqueKeys(m) ==> UniqueKeys(m[i := Binding(k, v)])
  {
    var r := m[i := Binding(k, v)];
    assert forall j :: 0 <= j < |r| ==> r[j].key == m[j].key;
    FindDetermined(r, k, i);
    forall k' | k' != k
      ensures Get(r, k') == Get(m, k')
    {
      FindDetermined(r, k', Find(m, k'));
    }
  }

  /** Appending a binding for an absent key. */
  lemma {:induction false} Appended<V>(m: Linked<V>, k: string, v: V)
    requires Find(m, k) < 0
    ensures Get(m + [Binding(k, v)], k) == Some(v)
    ensures forall k' :: k' != k ==> Get(m + [Binding(k, v)], k') == Get(m, k')
    ensures Keys(m + [Binding(k, v)]) == Keys(m) + [k]
    ensures UniqueKeys(m) ==> UniqueKeys(m + [Binding(k, v)])
  {
    var r := m + [Binding(k, v)];
    assert forall j :: 0 <= j < |m| ==> r[j] == m[j];
    FindDetermined(r, k, |m|);
    forall k' | k' != k
      ensures Get(r, k') == Get(m, k')
    {
      FindDetermined(r, k', Find(m, k'));
    }
  }
}
