/** Lists of keyed entries, seen as maps. */
module AssocList {

  ghost predicate DistinctKeys<T, K>(xs: seq<T>, key: T -> K) {
    forall i, j :: 0 <= i < j < |xs| ==> key(xs[i]) != key(xs[j])
  }

  /** Index of the first entry with key k, or |xs|. */
  ghost function IndexOf<T, K>(xs: seq<T>, key: T -> K, k: K): (i: nat)
    ensures i <= |xs|
    ensures i < |xs| ==> key(xs[i]) == k
    ensures forall j :: 0 <= j < i ==> key(xs[j]) != k
  {
    if xs == [] || key(xs[0]) == k then 0 else 1 + IndexOf(xs[1..], key, k)
  }

  ghost function AsMap<T, K, V>(xs: seq<T>, key: T -> K, val: T -> V): map<K, V> {
    map k | k in (set x <- xs :: key(x)) :: val(xs[IndexOf(xs, key, k)])
  }

  /** The list after storing x: appended if i is past the end, else over entry i, or with entry i dropped. */
  ghost function Place<T>(xs: seq<T>, i: nat, x: T, inPlace: bool): seq<T>
    requires i <= |xs|
  {
    if i == |xs| then xs + [x]
    else if inPlace then xs[i := x]
    else xs[..i] + xs[i + 1..] + [x]
  }

  lemma Entry<T, K, V>(xs: seq<T>, key: T -> K, val: T -> V, i: nat)
    requires DistinctKeys(xs, key) && i < |xs|
    ensures key(xs[i]) in AsMap(xs, key, val)
    ensures AsMap(xs, key, val)[key(xs[i])] == val(xs[i])
  {
    assert IndexOf(xs, key, key(xs[i])) == i;
    assert xs[i] in xs;
  }

  /** m is the map of xs when each entry is in m and each key of m has an entry. */
  lemma AsMapIs<T, K, V>(xs: seq<T>, key: T -> K, val: T -> V, m: map<K, V>)
    requires forall x <- xs :: key(x) in m && m[key(x)] == val(x)
    requires forall k <- m :: exists x :: x in xs && key(x) == k
    ensures AsMap(xs, key, val) == m
  {
    forall k | k in AsMap(xs, key, val) ensures k in m && m[k] == AsMap(xs, key, val)[k] {
      assert xs[IndexOf(xs, key, k)] in xs;
    }
  }

  /** Entry j after a Place is x, or an entry from before other than i. */
  lemma PlaceAt<T>(xs: seq<T>, i: nat, x: T, inPlace: bool, j: nat) returns (h: nat)
    requires i <= |xs| && j < |Place(xs, i, x, inPlace)|
    ensures
      var ys := Place(xs, i, x, inPlace);
      if j == (if i < |xs| && inPlace then i else |ys| - 1) then ys[j] == x
      else h < |xs| && h != i && ys[j] == xs[h] && h == if i < |xs| && !inPlace && i <= j then j + 1 else j
  {
    h := if i < |xs| && !inPlace && i <= j then j + 1 else j;
  }

  lemma PlaceReaches<T>(xs: seq<T>, i: nat, x: T, inPlace: bool, h: nat)
    requires i <= |xs| && h < |xs| && h != i
    ensures xs[h] in Place(xs, i, x, inPlace)
  {
    var ys := Place(xs, i, x, inPlace);
    assert xs[h] == ys[if i < |xs| && !inPlace && i < h then h - 1 else h];
  }

  lemma PlaceKeepsDistinct<T, K>(xs: seq<T>, key: T -> K, i: nat, x: T, inPlace: bool)
    requires DistinctKeys(xs, key) && i == IndexOf(xs, key, key(x))
    ensures DistinctKeys(Place(xs, i, x, inPlace), key)
  {
    var ys := Place(xs, i, x, inPlace);
    forall h | 0 <= h < |xs| && h != i ensures key(xs[h]) != key(x) {}
    forall j, k | 0 <= j < k < |ys| ensures key(ys[j]) != key(ys[k]) {
      var g := PlaceAt(xs, i, x, inPlace, j);
      var h := PlaceAt(xs, i, x, inPlace, k);
    }
  }

  /** Wherever the entry goes, its key maps to the new value and nothing else changes. */
  lemma PlaceUpdatesMap<T, K, V>(xs: seq<T>, key: T -> K, val: T -> V, i: nat, x: T, inPlace: bool)
    requires DistinctKeys(xs, key) && i == IndexOf(xs, key, key(x))
    ensures AsMap(Place(xs, i, x, inPlace), key, val) == AsMap(xs, key, val)[key(x) := val(x)]
  {
    var ys, m := Place(xs, i, x, inPlace), AsMap(xs, key, val)[key(x) := val(x)];
    forall y | y in ys ensures key(y) in m && m[key(y)] == val(y) {
      var j :| 0 <= j < |ys| && ys[j] == y;
      var h := PlaceAt(xs, i, x, inPlace, j);
      if y != x { Entry(xs, key, val, h); }
    }
    forall k | k in m ensures exists y :: y in ys && key(y) == k {
      if k == key(x) {
        assert ys[if i < |xs| && inPlace then i else |ys| - 1] == x;
      } else {
        PlaceReaches(xs, i, x, inPlace, IndexOf(xs, key, k));
      }
    }
    AsMapIs(ys, key, val, m);
  }
}
