/** An insertion-ordered dictionary, as a Python `dict` is: a sequence of
    key/value pairs, iterated in the order the keys were first inserted. */
module OrderedDict {
  import opened Results

  type Dict<K, V> = seq<(K, V)>

  /** `d.keys()`, in iteration order. */
  function Keys<K, V>(d: Dict<K, V>): (ks: seq<K>)
    ensures |ks| == |d|
    ensures forall i :: 0 <= i < |d| ==> ks[i] == d[i].0
  {
    seq(|d|, i requires 0 <= i < |d| => d[i].0)
  }

  /** The invariant of every dictionary: no key occurs twice. */
  ghost predicate DistinctKeys<K, V>(d: Dict<K, V>)
  {
    forall i, j :: 0 <= i < j < |d| ==> d[i].0 != d[j].0
  }

  /** The position of `k` in `d`, or `|d|` when `k` is not a key of `d`. */
  function Find<K(==), V>(d: Dict<K, V>, k: K): (i: nat)
    ensures i <= |d|
    ensures forall j :: 0 <= j < i ==> d[j].0 != k
    ensures i < |d| ==> d[i].0 == k
  {
    if d == [] then 0
    else if d[0].0 == k then 0
    else 1 + Find(d[1..], k)
  }

  /** `d.get(k)`: the value stored under `k`, or None. */
  function Get<K(==), V>(d: Dict<K, V>, k: K): (r: Option<V>)
    ensures r.Some? <==> k in Keys(d)
    ensures DistinctKeys(d) ==> forall i :: 0 <= i < |d| && d[i].0 == k ==> r == Some(d[i].1)
  {
    var i := Find(d, k);
    if i < |d| then Some(d[i].1) else None
  }

  /** `d.get(k, default)`. */
  function GetOr<K(==), V>(d: Dict<K, V>, k: K, default: V): (v: V)
    ensures k in Keys(d) ==> Get(d, k) == Some(v)
    ensures k !in Keys(d) ==> v == default
  {
    match Get(d, k)
    case Some(x) => x
    case None => default
  }

  /** `d[k] = v`: a key already present keeps its position and takes the
      new value; a new key is appended at the end. */
  function Set<K(==, !new), V>(d: Dict<K, V>, k: K, v: V): (r: Dict<K, V>)
    ensures Keys(r) == if k in Keys(d) then Keys(d) else Keys(d) + [k]
    ensures k !in Keys(d) ==> r == d + [(k, v)]
    ensures Get(r, k) == Some(v)
    ensures forall k' :: k' != k ==> Get(r, k') == Get(d, k')
    ensures DistinctKeys(d) ==> DistinctKeys(r)
  {
    var i := Find(d, k);
    if i < |d| then d[i := (k, v)]
    else
      FindAfterAppend(d, k, v);
      d + [(k, v)]
  }

  /** Appending a new key leaves the position of every other key alone. */
  lemma FindAfterAppend<K(!new), V>(d: Dict<K, V>, k: K, v: V)
    requires k !in Keys(d)
    ensures forall k' :: k' != k ==> Find(d + [(k, v)], k') == Find(d, k') + (if Find(d, k') < |d| then 0 else 1)
  {
    forall k' | k' != k
      ensures Find(d + [(k, v)], k') == Find(d, k') + (if Find(d, k') < |d| then 0 else 1)
    {
      var i, r := Find(d, k'), d + [(k, v)];
      var j := Find(r, k');
      if i < |d| {
        assert r[i].0 == k';
      } else {
        assert forall m :: 0 <= m <= |d| ==> r[m].0 != k';
      }
    }
  }
}
