/**
 The generic `swap(T& a, T& b)` helper. The two references are modelled as two
 locations `i` and `j` of a store; they may be the same location, as two C++
 references may alias.
 */
module Swap {

  /** Runs the three assignments `t = a; a = b; b = t;` on the store. */
  function Swap<T>(store: seq<T>, i: nat, j: nat): (r: seq<T>)
    requires i < |store| && j < |store|
    ensures |r| == |store|
    ensures r[i] == store[j] && r[j] == store[i]
    ensures forall k :: 0 <= k < |store| && k != i && k != j ==> r[k] == store[k]
  {
    var t := store[i];
    var afterA := store[i := store[j]];
    afterA[j := t]
  }

  /** Swapping a location with itself changes nothing. */
  lemma SwapAliased<T>(store: seq<T>, i: nat)
    requires i < |store|
    ensures Swap(store, i, i) == store
  {
  }

  /** Swapping twice restores the store. */
  lemma SwapInvolution<T>(store: seq<T>, i: nat, j: nat)
    requires i < |store| && j < |store|
    ensures Swap(Swap(store, i, j), i, j) == store
  {
  }

  /** A swap moves values around and neither loses nor duplicates any. */
  lemma SwapPermutes<T>(store: seq<T>, i: nat, j: nat)
    requires i < |store| && j < |store|
    ensures multiset(Swap(store, i, j)) == multiset(store)
  {
    var t := store[i];
    var afterA := store[i := store[j]];
    assert multiset(afterA) == multiset(store) - multiset{t} + multiset{store[j]};
  }
}
