/** Indices picked from a list in ascending order: which lists of them there are, and how they grow. */
module Listings {

  predicate IsIncreasing(places: seq<nat>) {
    forall k :: 0 < k < |places| ==> places[k - 1] < places[k]
  }

  lemma {:induction false} EarlierIsLess(places: seq<nat>, j: nat, k: nat)
    requires IsIncreasing(places) && j < k < |places|
    ensures places[j] < places[k]
  {
    if j + 1 < k {
      EarlierIsLess(places, j, k - 1);
    }
  }

  lemma {:induction false} PlacesAreUnique(places: seq<nat>, others: seq<nat>)
    requires IsIncreasing(places) && IsIncreasing(others) && forall i: nat :: i in places <==> i in others
    ensures places == others
    decreases |places|
  {
    if others != [] {
      assert others[0] in others;
    }
    if places != [] {
      var n, m := |places| - 1, |others| - 1;
      assert places[n] in places && places[n] in others && others[m] in others && others[m] in places;
      SameLast(places, others);
      DropLast(places);
      DropLast(others);
      forall i: nat ensures i in places[..n] <==> i in others[..m] {
        assert i in places <==> i in others;
      }
      PlacesAreUnique(places[..n], others[..m]);
    }
  }

  lemma SameLast(places: seq<nat>, others: seq<nat>)
    requires IsIncreasing(places) && IsIncreasing(others) && places != [] && others != []
    requires places[|places| - 1] in others && others[|others| - 1] in places
    ensures places[|places| - 1] == others[|others| - 1]
  {
    var j :| 0 <= j < |others| && others[j] == places[|places| - 1];
    var k :| 0 <= k < |places| && places[k] == others[|others| - 1];
    if j < |others| - 1 {
      EarlierIsLess(others, j, |others| - 1);
    }
    if k < |places| - 1 {
      EarlierIsLess(places, k, |places| - 1);
    }
  }

  lemma DropLast(places: seq<nat>)
    requires IsIncreasing(places) && places != []
    ensures forall i: nat :: i in places[..|places| - 1] <==> i in places && i != places[|places| - 1]
  {
    var n := |places| - 1;
    forall k | 0 <= k < n ensures places[k] < places[n] {
      EarlierIsLess(places, k, n);
    }
    forall i: nat | i in places && i != places[n] ensures i in places[..n] {
      var k :| 0 <= k < |places| && places[k] == i;
      assert places[..n][k] == i;
    }
  }

  /** `places` are the indices below `n` that are wanted, in order. */
  ghost predicate Selects(n: nat, wanted: nat -> bool, places: seq<nat>) {
    IsIncreasing(places) && forall i: nat :: i in places <==> i < n && wanted(i)
  }

  lemma SelectOneMore(n: nat, wanted: nat -> bool, places: seq<nat>)
    requires Selects(n, wanted, places)
    ensures Selects(n + 1, wanted, if wanted(n) then places + [n] else places)
  {
    if wanted(n) {
      var more := places + [n];
      assert places != [] ==> places[|places| - 1] in places;
      forall i: nat ensures i in more <==> i < n + 1 && wanted(i) {
        assert i in more <==> i in places || i == n;
      }
    }
  }

  lemma SelectsIsUnique(n: nat, wanted: nat -> bool, places: seq<nat>, others: seq<nat>)
    requires Selects(n, wanted, places) && Selects(n, wanted, others)
    ensures places == others
  {
    PlacesAreUnique(places, others);
  }

  lemma {:induction false} SelectExists(n: nat, wanted: nat -> bool) returns (places: seq<nat>)
    ensures Selects(n, wanted, places)
  {
    places := [];
    if n > 0 {
      places := SelectExists(n - 1, wanted);
      SelectOneMore(n - 1, wanted, places);
      if wanted(n - 1) {
        places := places + [n - 1];
      }
    }
  }

  /** A set with the same elements has as many. */
  lemma {:induction false} IncreasingSize(places: seq<nat>, s: set<nat>)
    requires IsIncreasing(places) && forall i: nat :: i in s <==> i in places
    ensures |s| == |places|
    decreases |places|
  {
    if places == [] {
      assert s == {};
    } else {
      var n := |places| - 1;
      assert places[n] in places;
      DropLast(places);
      IncreasingSize(places[..n], s - {places[n]});
    }
  }
}
