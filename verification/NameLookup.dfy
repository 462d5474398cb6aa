/** Function names: the order in which the loader takes them, and the runtime's search for one. */
module NameLookups {
  import opened Words

  ghost predicate Increasing(indexes: seq<uint32>) {
    forall i, j :: 0 <= i < j < |indexes| ==> indexes[i] < indexes[j]
  }

  /** The checks of load_name_section on the function indexes as they are read. */
  method CheckIndexes(indexes: seq<uint32>, functionCount: uint32) returns (ok: bool)
    requires |indexes| <= UINT32_MAX
    ensures ok <==> Increasing(indexes) && |indexes| <= functionCount && forall k <- indexes :: k < functionCount
  {
    if |indexes| > functionCount { return false; }
    var previous: uint32 := 0;
    for i := 0 to |indexes|
      invariant i > 0 ==> previous == indexes[i - 1]
      invariant forall j, k :: 0 <= j < k < i ==> indexes[j] < indexes[k]
      invariant forall k :: 0 <= k < i ==> indexes[k] < functionCount
    {
      if i != 0 && indexes[i] == previous { return false; }
      if i != 0 && indexes[i] < previous { return false; }
      if indexes[i] >= functionCount {
        assert indexes[i] in indexes;
        return false;
      }
      previous := indexes[i];
    }
    ok := true;
  }

  /** The names in the order of the table, one after the other. */
  function Scan(names: seq<seq<byte>>, indexes: seq<uint32>, index: uint32): Option<seq<byte>>
    requires |names| == |indexes|
  {
    if names == [] then None
    else if indexes[0] == index then Some(names[0])
    else Scan(names[1..], indexes[1..], index)
  }

  /** lookup_func_name: the binary search finds what a linear one does. */
  method LookupFuncName(names: seq<seq<byte>>, indexes: seq<uint32>, index: uint32) returns (r: Option<seq<byte>>)
    requires |names| == |indexes| <= UINT32_MAX && Increasing(indexes)
    ensures r == Scan(names, indexes, index)
  {
    if |indexes| == 0 { return None; }
    var low, high := 0, |indexes| - 1;
    while low <= high
      invariant 0 <= low && high < |indexes| && low <= high + 1
      invariant forall k :: 0 <= k < low ==> indexes[k] < index
      invariant forall k :: high < k < |indexes| ==> indexes[k] > index
    {
      var mid := (low + high) / 2;
      if index == indexes[mid] {
        ScanFinds(names, indexes, index, mid);
        return Some(names[mid]);
      } else if index < indexes[mid] {
        high := mid - 1;
      } else {
        low := mid + 1;
      }
    }
    ScanMisses(names, indexes, index);
    r := None;
  }

  lemma {:induction false} ScanFinds(names: seq<seq<byte>>, indexes: seq<uint32>, index: uint32, k: nat)
    requires |names| == |indexes| && Increasing(indexes) && k < |indexes| && indexes[k] == index
    ensures Scan(names, indexes, index) == Some(names[k])
  {
    if k > 0 { ScanFinds(names[1..], indexes[1..], index, k - 1); }
  }

  lemma {:induction false} ScanMisses(names: seq<seq<byte>>, indexes: seq<uint32>, index: uint32)
    requires |names| == |indexes| && forall k :: 0 <= k < |indexes| ==> indexes[k] != index
    ensures Scan(names, indexes, index) == None
  {
    if names != [] { ScanMisses(names[1..], indexes[1..], index); }
  }
}
