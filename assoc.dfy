/** PHP's ordered associative arrays, as sequences of key/value entries
    whose keys are distinct. */
module Assoc {
  import opened Wrappers

  type Entries<K, V> = seq<(K, V)>

  predicate UniqueKeys<K(==), V>(e: Entries<K, V>)
  {
    forall i, j :: 0 <= i < j < |e| ==> e[i].0 != e[j].0
  }

  predicate HasKey<K(==), V>(e: Entries<K, V>, k: K)
  {
    exists i :: 0 <= i < |e| && e[i].0 == k
  }

  /** The position of the first entry with key `k`. */
  function IndexOf<K(==), V>(e: Entries<K, V>, k: K): (r: Option<nat>)
    ensures r.None? <==> !HasKey(e, k)
    ensures r.Some? ==> r.value < |e| && e[r.value].0 == k
    ensures r.Some? ==> forall j :: 0 <= j < r.value ==> e[j].0 != k
    decreases |e|
  {
    if e == [] then None
    else if e[0].0 == k then Some(0)
    else
      match IndexOf(e[1..], k)
      case None =>
        assert forall i :: 0 < i < |e| ==> e[i] == e[1..][i - 1];
        None
      case Some(i) =>
        assert forall j :: 0 < j <= i ==> e[j] == e[1..][j - 1];
        Some(i + 1)
  }

  /** `$e[$k] ?? null`. */
  function Get<K(==), V>(e: Entries<K, V>, k: K): (r: Option<V>)
    ensures r.None? <==> !HasKey(e, k)
  {
    match IndexOf(e, k)
    case None => None
    case Some(i) => Some(e[i].1)
  }

  /** `$e[$k] = $v`: an existing key keeps its place and takes the new
      value; a new key goes at the end. */
  function Put<K(==), V>(e: Entries<K, V>, k: K, v: V): (r: Entries<K, V>)
    ensures HasKey(e, k) ==> |r| == |e| && Keys(r) == Keys(e)
    ensures !HasKey(e, k) ==> r == e + [(k, v)]
  {
    match IndexOf(e, k)
    case None => e + [(k, v)]
    case Some(i) => e[i := (k, v)]
  }

  /** Reading a key back after writing it. */
  lemma PutGetSame<K, V>(e: Entries<K, V>, k: K, v: V)
    ensures Get(Put(e, k, v), k) == Some(v)
  {
    var r := Put(e, k, v);
    if IndexOf(e, k).None? {
      assert r[|e|].0 == k;
      assert forall i :: 0 <= i < |e| ==> r[i] == e[i];
    }
  }

  /** Writing a key leaves the other keys as they were. */
  lemma PutGetOther<K, V>(e: Entries<K, V>, k: K, v: V, k': K)
    requires k' != k
    ensures Get(Put(e, k, v), k') == Get(e, k')
  {
    var r := Put(e, k, v);
    assert forall i :: 0 <= i < |e| && e[i].0 != k ==> r[i] == e[i];
    assert forall i :: 0 <= i < |r| && r[i].0 == k' ==> i < |e| && e[i].0 == k';
    match IndexOf(e, k')
    case None =>
    case Some(m) =>
      assert r[m] == e[m];
      var i := IndexOf(r, k').value;
      assert i <= m && e[i].0 == k';
      assert i == m;
  }

  /** Writing keeps the keys distinct. */
  lemma PutUnique<K, V>(e: Entries<K, V>, k: K, v: V)
    requires UniqueKeys(e)
    ensures UniqueKeys(Put(e, k, v))
  {
    match IndexOf(e, k)
    case None =>
      var r := Put(e, k, v);
      forall i, j | 0 <= i < j < |r|
        ensures r[i].0 != r[j].0
      {
        if j == |e| {
          assert r[i] == e[i];
        } else {
          assert r[i] == e[i] && r[j] == e[j];
        }
      }
    case Some(_) =>
  }

  /** The keys in order. */
  function Keys<K, V>(e: Entries<K, V>): (r: seq<K>)
    ensures |r| == |e| && forall i :: 0 <= i < |e| ==> r[i] == e[i].0
  {
    seq(|e|, i requires 0 <= i < |e| => e[i].0)
  }
}
