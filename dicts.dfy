/** Python dictionaries with string keys, modelled as association lists in
    insertion order. Binding a key that is already present replaces its value
    in place; binding a new key appends it at the end. */
module Dicts {
  import opened Wrappers

  type Dict<V> = seq<(string, V)>

  function Keys<V>(d: Dict<V>): (ks: seq<string>)
    ensures |ks| == |d|
    ensures forall i :: 0 <= i < |d| ==> ks[i] == d[i].0
  {
    seq(|d|, i requires 0 <= i < |d| => d[i].0)
  }

  /** A real Python dict: no key occurs twice. */
  predicate IsDict<V>(d: Dict<V>)
  {
    forall i, j :: 0 <= i < j < |d| ==> d[i].0 != d[j].0
  }

  /** The position of the binding of `k`, if there is one. */
  function Find<V>(d: Dict<V>, k: string): (r: Option<nat>)
    ensures r.Some? ==> r.value < |d| && d[r.value].0 == k
  {
    if d == [] then None
    else if d[0].0 == k then Some(0)
    else match Find(d[1..], k)
      case None => None
      case Some(i) => Some(i + 1)
  }

  /** Find returns the first position of `k`, and None only when `k` is absent. */
  lemma {:induction false} FindFirst<V>(d: Dict<V>, k: string)
    ensures Find(d, k).Some? ==> forall j :: 0 <= j < Find(d, k).value ==> d[j].0 != k
    ensures Find(d, k).None? ==> forall j :: 0 <= j < |d| ==> d[j].0 != k
  {
    if d != [] && d[0].0 != k {
      FindFirst(d[1..], k);
      assert forall j :: 1 <= j < |d| ==> d[j] == d[1..][j - 1];
    }
  }

  predicate HasKey<V>(d: Dict<V>, k: string)
  {
    Find(d, k).Some?
  }

  /** `d.get(k)`: the value bound to `k`, or None. */
  function Get<V>(d: Dict<V>, k: string): Option<V>
  {
    match Find(d, k)
    case None => None
    case Some(i) => Some(d[i].1)
  }

  /** `d.get(k)` finds a value exactly when `k` is a key of `d`, and that value is bound to `k` in `d`. */
  lemma GetSpec<V>(d: Dict<V>, k: string)
    ensures Get(d, k).Some? <==> k in Keys(d)
    ensures Get(d, k).Some? ==> (k, Get(d, k).value) in d
  {
    FindFirst(d, k);
    match Find(d, k)
    case None =>
      assert k !in Keys(d);
    case Some(i) =>
      assert Keys(d)[i] == k && d[i] == (k, Get(d, k).value);
  }

  /** `d[k] = v`. */
  function Put<V>(d: Dict<V>, k: string, v: V): (r: Dict<V>)
    ensures Keys(r) == if HasKey(d, k) then Keys(d) else Keys(d) + [k]
    ensures Get(r, k) == Some(v)
    ensures forall k' :: k' != k ==> Get(r, k') == Get(d, k')
  {
    match Find(d, k)
    case Some(i) =>
      var r := d[i := (k, v)];
      assert Find(r, k) == Some(i) by { FindUpdate(d, i, k, v, k); }
      forall k' | k' != k ensures Get(r, k') == Get(d, k') {
        FindUpdate(d, i, k, v, k');
      }
      r
    case None =>
      var r := d + [(k, v)];
      FindAppend(d, k, v, k);
      forall k' | k' != k ensures Get(r, k') == Get(d, k') {
        FindAppend(d, k, v, k');
      }
      r
  }

  /** Rebinding a key that is present replaces the binding at its position. */
  lemma PutAt<V>(d: Dict<V>, k: string, v: V, i: nat)
    requires Find(d, k) == Some(i)
    ensures Put(d, k, v) == d[i := (k, v)]
  {
  }

  /** Binding a key keeps the keys distinct. */
  lemma PutIsDict<V>(d: Dict<V>, k: string, v: V)
    requires IsDict(d)
    ensures IsDict(Put(d, k, v))
  {
    FindFirst(d, k);
  }

  /** An IsDict binds each of its keys at exactly the position where it occurs. */
  lemma {:induction false} GetAt<V>(d: Dict<V>, i: nat)
    requires IsDict(d) && i < |d|
    ensures Find(d, d[i].0) == Some(i)
    ensures Get(d, d[i].0) == Some(d[i].1)
  {
    FindFirst(d, d[i].0);
  }

  lemma {:induction false} FindUpdate<V>(d: Dict<V>, i: nat, k: string, v: V, k': string)
    requires i < |d| && Find(d, k) == Some(i)
    ensures Find(d[i := (k, v)], k') == Find(d, k')
  {
    var r := d[i := (k, v)];
    assert Keys(r) == Keys(d);
    FindDependsOnKeys(r, d, k');
  }

  lemma {:induction false} FindDependsOnKeys<V, W>(a: Dict<V>, b: Dict<W>, k: string)
    requires Keys(a) == Keys(b)
    ensures Find(a, k) == Find(b, k)
  {
    if a != [] {
      assert Keys(a[1..]) == Keys(a)[1..];
      assert Keys(b[1..]) == Keys(b)[1..];
      assert a[0].0 == Keys(a)[0];
      FindDependsOnKeys(a[1..], b[1..], k);
    }
  }

  lemma {:induction false} FindAppend<V>(d: Dict<V>, k: string, v: V, k': string)
    requires Find(d, k).None?
    ensures Find(d + [(k, v)], k') == if k' == k then Some(|d|) else Find(d, k')
  {
    var r := d + [(k, v)];
    if d == [] {
      assert r == [(k, v)];
    } else {
      assert r[1..] == d[1..] + [(k, v)];
      FindAppend(d[1..], k, v, k');
    }
  }

  /** The dict with `f` applied to every value; keys and order are kept. */
  function MapValues<V, W>(d: Dict<V>, f: V -> W): (r: Dict<W>)
    ensures Keys(r) == Keys(d)
    ensures forall i :: 0 <= i < |d| ==> r[i] == (d[i].0, f(d[i].1))
  {
    seq(|d|, i requires 0 <= i < |d| => (d[i].0, f(d[i].1)))
  }

  /** Looking a key up after mapping is mapping the looked-up value. */
  lemma MapGet<V, W>(d: Dict<V>, f: V -> W, k: string)
    ensures Get(MapValues(d, f), k) == match Get(d, k) case None => None case Some(v) => Some(f(v))
  {
    FindDependsOnKeys(MapValues(d, f), d, k);
  }

  /** Mapping commutes with binding a key. */
  lemma MapPut<V, W>(d: Dict<V>, f: V -> W, k: string, v: V)
    ensures MapValues(Put(d, k, v), f) == Put(MapValues(d, f), k, f(v))
  {
    var m := MapValues(d, f);
    FindDependsOnKeys(m, d, k);
    match Find(d, k)
    case Some(i) =>
      assert MapValues(d[i := (k, v)], f) == m[i := (k, f(v))];
    case None =>
      assert MapValues(d + [(k, v)], f) == m + [(k, f(v))];
  }

  /** Rebinding a key to the value it already has changes nothing. */
  lemma PutExisting<V>(d: Dict<V>, k: string, v: V)
    requires Get(d, k) == Some(v)
    ensures Put(d, k, v) == d
  {
    var i := Find(d, k).value;
    assert d[i := (k, v)] == d;
  }

  /** Rebinding a key to a value that `f` cannot tell from the old one is invisible after mapping. */
  lemma PutInvisible<V, W>(d: Dict<V>, f: V -> W, k: string, v: V, v': V)
    requires Get(d, k) == Some(v) && f(v') == f(v)
    ensures MapValues(Put(d, k, v'), f) == MapValues(d, f)
  {
    MapPut(d, f, k, v');
    MapGet(d, f, k);
    PutExisting(MapValues(d, f), k, f(v));
  }

  /** A property of every binding survives binding a key to a value that has it too. */
  lemma PutAll<V>(d: Dict<V>, k: string, v: V, P: ((string, V)) -> bool)
    requires forall i :: 0 <= i < |d| ==> P(d[i])
    requires P((k, v))
    ensures var r := Put(d, k, v); forall i :: 0 <= i < |r| ==> P(r[i])
  {
  }
}
