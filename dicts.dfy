/**
 * Python dicts with string keys, as association lists in insertion order:
 * assigning to a present key keeps its position, a new key goes last.
 */
module Dicts {
  import opened Wrappers

  type Dict<V> = seq<(string, V)>

  function Keys<V>(d: Dict<V>): (ks: seq<string>)
    ensures |ks| == |d|
    ensures forall i :: 0 <= i < |d| ==> ks[i] == d[i].0
  {
    seq(|d|, i requires 0 <= i < |d| => d[i].0)
  }

  predicate UniqueKeys<V>(d: Dict<V>)
  {
    forall i, j :: 0 <= i < j < |d| ==> d[i].0 != d[j].0
  }

  predicate Distinct(ks: seq<string>)
  {
    forall i, j :: 0 <= i < j < |ks| ==> ks[i] != ks[j]
  }

  /** The position of key `k` in `d`: its first entry. */
  function Position<V>(d: Dict<V>, k: string): (r: Option<nat>)
    ensures r.None? ==> forall i :: 0 <= i < |d| ==> d[i].0 != k
    ensures r.Some? ==> r.value < |d| && d[r.value].0 == k && forall i :: 0 <= i < r.value ==> d[i].0 != k
  {
    if d == [] then None
    else if d[0].0 == k then Some(0)
    else match Position(d[1..], k)
      case None => None
      case Some(i) => Some(i + 1)
  }

  /** Entries with the same keys in the same order put every key at the same position. */
  lemma PositionOfKeys<V>(a: Dict<V>, b: Dict<V>, k: string)
    requires |a| == |b| && forall i :: 0 <= i < |a| ==> a[i].0 == b[i].0
    ensures Position(a, k) == Position(b, k)
  {
    var pa, pb := Position(a, k), Position(b, k);
    if pa.Some? {
      assert b[pa.value].0 == k;
    }
    if pb.Some? {
      assert a[pb.value].0 == k;
    }
  }

  /** Appending an entry for `k` moves no other key. */
  lemma PositionAppend<V>(d: Dict<V>, k: string, v: V, k': string)
    requires k' != k
    ensures Position(d + [(k, v)], k') == Position(d, k')
  {
    var r := d + [(k, v)];
    var pr, pd := Position(r, k'), Position(d, k');
    if pr.Some? {
      assert d[pr.value].0 == k';
    }
    if pd.Some? {
      assert r[pd.value].0 == k';
    }
  }

  /** `d.get(k)`: the value stored under `k`, if any. */
  function Lookup<V>(d: Dict<V>, k: string): (r: Option<V>)
    ensures r.None? <==> forall i :: 0 <= i < |d| ==> d[i].0 != k
  {
    match Position(d, k)
    case None => None
    case Some(i) => Some(d[i].1)
  }

  /** With unique keys, the entry at index `i` is what its key looks up. */
  lemma LookupAt<V>(d: Dict<V>, i: nat)
    requires UniqueKeys(d) && i < |d|
    ensures Lookup(d, d[i].0) == Some(d[i].1)
  {
  }

  /** `d[k] = v`. */
  function Set<V>(d: Dict<V>, k: string, v: V): (r: Dict<V>)
    ensures Lookup(r, k) == Some(v)
    ensures forall k' :: k' != k ==> Lookup(r, k') == Lookup(d, k')
    ensures Keys(r) == if k in Keys(d) then Keys(d) else Keys(d) + [k]
    ensures |d| <= |r| && forall i :: 0 <= i < |d| ==> r[i].0 == d[i].0
  {
    match Position(d, k)
    case Some(i) =>
      var r := d[i := (k, v)];
      forall k' ensures Position(r, k') == Position(d, k') {
        PositionOfKeys(r, d, k');
      }
      assert Keys(r) == Keys(d);
      r
    case None =>
      var r := d + [(k, v)];
      forall k' | k' != k ensures Position(r, k') == Position(d, k') {
        PositionAppend(d, k, v, k');
      }
      assert r[|d|] == (k, v);
      assert Keys(r) == Keys(d) + [k];
      r
  }

  /** Assigning a key not yet present appends it. */
  lemma SetNew<V>(d: Dict<V>, k: string, v: V)
    requires forall i :: 0 <= i < |d| ==> d[i].0 != k
    ensures Set(d, k, v) == d + [(k, v)]
  {
  }

  lemma SetUnique<V>(d: Dict<V>, k: string, v: V)
    requires UniqueKeys(d)
    ensures UniqueKeys(Set(d, k, v))
  {
    var r := Set(d, k, v);
    forall i, j | 0 <= i < j < |r| ensures r[i].0 != r[j].0 {
      assert Keys(r)[i] == r[i].0 && Keys(r)[j] == r[j].0;
      if j < |d| {
        assert Keys(d)[i] == d[i].0 && Keys(d)[j] == d[j].0;
      }
    }
  }

  /** `dict(pairs)`: assign the pairs in order, a later pair overwriting an earlier one with the same key. */
  function Assign<V>(pairs: seq<(string, V)>): (d: Dict<V>)
    ensures UniqueKeys(d)
  {
    if pairs == [] then []
    else
      var d := Assign(pairs[..|pairs| - 1]);
      SetUnique(d, pairs[|pairs| - 1].0, pairs[|pairs| - 1].1);
      Set(d, pairs[|pairs| - 1].0, pairs[|pairs| - 1].1)
  }

  /** `d.update(other)`. */
  function Update<V>(d: Dict<V>, other: Dict<V>): (r: Dict<V>)
    ensures UniqueKeys(d) ==> UniqueKeys(r)
  {
    if other == [] then d
    else
      var e := Update(d, other[..|other| - 1]);
      SetKeepsUnique(e, other[|other| - 1].0, other[|other| - 1].1);
      Set(e, other[|other| - 1].0, other[|other| - 1].1)
  }

  lemma SetKeepsUnique<V>(d: Dict<V>, k: string, v: V)
    ensures UniqueKeys(d) ==> UniqueKeys(Set(d, k, v))
  {
    if UniqueKeys(d) {
      SetUnique(d, k, v);
    }
  }

  /** Dropping the last entry keeps keys unique, and no earlier entry has the last key. */
  lemma UniqueInit<V>(d: Dict<V>)
    requires d != [] && UniqueKeys(d)
    ensures UniqueKeys(d[..|d| - 1])
    ensures forall i :: 0 <= i < |d| - 1 ==> d[i].0 != d[|d| - 1].0
  {
  }

  /** A non-empty sequence is its prefix followed by its last element. */
  lemma Snoc<T>(s: seq<T>)
    requires s != []
    ensures s == s[..|s| - 1] + [s[|s| - 1]]
  {
  }

  lemma UpdateSnoc<V>(d: Dict<V>, other: Dict<V>)
    requires other != []
    ensures Update(d, other) == Set(Update(d, other[..|other| - 1]), other[|other| - 1].0, other[|other| - 1].1)
  {
  }

  /** After `d.update(other)` a key holds its value in `other` if it has one there, else its value in `d`. */
  lemma {:induction false} UpdateLookup<V>(d: Dict<V>, other: Dict<V>, k: string)
    requires UniqueKeys(other)
    ensures Lookup(Update(d, other), k) == if Lookup(other, k).Some? then Lookup(other, k) else Lookup(d, k)
  {
    if other != [] {
      var init, last := other[..|other| - 1], other[|other| - 1];
      UniqueInit(other);
      UpdateLookup(d, init, k);
      UpdateSnoc(d, other);
      Snoc(other);
      if last.0 != k {
        PositionAppend(init, last.0, last.1, k);
      } else {
        LookupAt(other, |other| - 1);
      }
    }
  }

  /**
   * Assigning the `i`-th of distinct keys, when only the first `i` were changed so far:
   * the earlier keys keep their values and every key outside the first `i + 1` is as in `d`.
   */
  lemma SetNextKey<V>(d: Dict<V>, e: Dict<V>, keys: seq<string>, i: nat, v: V)
    requires i < |keys| && Distinct(keys)
    requires forall k :: k !in keys[..i] ==> Lookup(e, k) == Lookup(d, k)
    ensures Lookup(e, keys[i]) == Lookup(d, keys[i])
    ensures forall j :: 0 <= j < i ==> Lookup(Set(e, keys[i], v), keys[j]) == Lookup(e, keys[j])
    ensures forall k :: k !in keys[..i + 1] ==> Lookup(Set(e, keys[i], v), k) == Lookup(d, k)
  {
    assert keys[i] !in keys[..i];
    assert keys[..i + 1] == keys[..i] + [keys[i]];
  }

  /** Entries whose keys are distinct, in order, look up what they hold. */
  lemma DistinctLookup<V>(r: Dict<V>, keys: seq<string>, k: string)
    requires Distinct(keys) && |r| == |keys| && forall i :: 0 <= i < |r| ==> r[i].0 == keys[i]
    requires k in keys
    ensures exists i :: 0 <= i < |r| && keys[i] == k && Lookup(r, k) == Some(r[i].1)
  {
    var i :| 0 <= i < |keys| && keys[i] == k;
    LookupAt(r, i);
  }

  /** The index of the last pair with key `k`. */
  function LastIndex<V>(pairs: seq<(string, V)>, k: string): (r: Option<nat>)
    ensures r.None? ==> forall j :: 0 <= j < |pairs| ==> pairs[j].0 != k
    ensures r.Some? ==> r.value < |pairs| && pairs[r.value].0 == k
                        && forall j :: r.value < j < |pairs| ==> pairs[j].0 != k
  {
    if pairs == [] then None
    else if pairs[|pairs| - 1].0 == k then Some(|pairs| - 1)
    else LastIndex(pairs[..|pairs| - 1], k)
  }

  /** A key of `dict(pairs)` holds the value of its last pair; a key no pair has is absent. */
  lemma {:induction false} AssignLookup<V>(pairs: seq<(string, V)>, k: string)
    ensures Lookup(Assign(pairs), k) == match LastIndex(pairs, k)
                                        case None => None
                                        case Some(j) => Some(pairs[j].1)
  {
    if pairs != [] {
      var init, last := pairs[..|pairs| - 1], pairs[|pairs| - 1];
      AssignLookup(init, k);
      if last.0 != k {
        match LastIndex(init, k)
        case None =>
        case Some(j) => assert pairs[j] == init[j];
      }
    }
  }
}
