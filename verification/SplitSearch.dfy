/**
 The two searches that choose where a node is cut (src/index/btree.cpp:236-310).
 A cut at i is safe only on a boundary: keys[i-1] != keys[i].
 */
module SplitSearch {
  import opened Wrappers

  ghost predicate Boundary(keys: seq<int>, i: int) {
    1 <= i < |keys| && keys[i - 1] != keys[i]
  }

  /** Nearest boundary at or after `naive`, else the last one before it, else `naive` itself. */
  method FindSplitBoundary(keys: seq<int>, naive: nat) returns (mid: nat)
    requires 1 <= naive < |keys|
    ensures 1 <= mid < |keys|
    ensures Boundary(keys, mid) && mid >= naive ==> forall i :: naive <= i < mid ==> !Boundary(keys, i)
    ensures Boundary(keys, mid) && mid < naive ==> forall i :: mid < i < |keys| ==> !Boundary(keys, i)
    ensures !Boundary(keys, mid) ==> mid == naive && forall i :: 1 <= i < |keys| ==> !Boundary(keys, i)
  {
    var i := naive;
    while i < |keys|
      invariant naive <= i <= |keys|
      invariant forall j :: naive <= j < i ==> !Boundary(keys, j)
    {
      if keys[i] != keys[i - 1] { return i; }
      i := i + 1;
    }
    i := naive;
    while i >= 1
      invariant 1 <= i <= naive
      invariant forall j :: i < j < |keys| ==> !Boundary(keys, j)
      decreases i
    {
      if keys[i] != keys[i - 1] { return i; }
      if i == 1 { break; }
      i := i - 1;
    }
    return naive;
  }

  function Clamp(x: nat, lo: nat, hi: nat): nat {
    if x < lo then lo else if x > hi then hi else x
  }

  function Distance(x: int, y: int): nat {
    if x < y then y - x else x - y
  }

  /** The boundary in [minSplit, maxSplit] closest to the clamped ideal, the larger one on a tie. */
  method FindRebalanceSplit(keys: seq<int>, minSplit: nat, maxSplit: nat, ideal0: nat) returns (r: Option<nat>)
    requires 1 <= minSplit <= maxSplit < |keys|
    ensures r.None? ==> forall i :: minSplit <= i <= maxSplit ==> !Boundary(keys, i)
    ensures r.Some? ==> minSplit <= r.value <= maxSplit && Boundary(keys, r.value)
    ensures r.Some? ==> var ideal := Clamp(ideal0, minSplit, maxSplit);
              forall i :: minSplit <= i <= maxSplit && Boundary(keys, i) ==>
                Distance(ideal, r.value) < Distance(ideal, i) ||
                (Distance(ideal, r.value) == Distance(ideal, i) && r.value >= i)
  {
    var ideal := Clamp(ideal0, minSplit, maxSplit);
    if keys[ideal - 1] != keys[ideal] { return Some(ideal); }
    var offset := 1;
    while true
      invariant offset >= 1
      invariant forall i :: minSplit <= i <= maxSplit && Distance(ideal, i) < offset ==> !Boundary(keys, i)
      decreases maxSplit + 1 - offset
    {
      var inRange := false;
      if ideal + offset <= maxSplit {
        inRange := true;
        if keys[ideal + offset - 1] != keys[ideal + offset] { return Some(ideal + offset); }
      }
      if offset <= ideal - minSplit {
        inRange := true;
        if keys[ideal - offset - 1] != keys[ideal - offset] { return Some(ideal - offset); }
      }
      if !inRange { break; }
      offset := offset + 1;
    }
    return None;
  }
}
