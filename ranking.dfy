/** The rank permutation of `Flooder.__init__`: `sidx = argsort(pot_1D)`
    lists the flat indices by potential, and `inv_sidx = argsort(sidx)` is
    its inverse, the rank of every node. */
module Ranking {
  import opened Common
  import opened Grid

  /** The order `argsort` puts flat indices in: by potential, numbers
      ascending and NaN after every number; equal potentials by index. */
  predicate Before(pot: seq<Pot>, i: nat, j: nat)
  {
    && i < |pot| && j < |pot|
    && match (pot[i], pot[j])
       case (Val(a), Val(b)) => a < b || (a == b && i < j)
       case (Val(_), NaN) => true
       case (NaN, Val(_)) => false
       case (NaN, NaN) => i < j
  }

  lemma BeforeIrreflexive(pot: seq<Pot>, i: nat)
    ensures !Before(pot, i, i)
  {
  }

  lemma BeforeTotal(pot: seq<Pot>, i: nat, j: nat)
    requires i < |pot| && j < |pot| && i != j
    ensures Before(pot, i, j) != Before(pot, j, i)
  {
  }

  lemma BeforeAsymmetric(pot: seq<Pot>, i: nat, j: nat)
    ensures !(Before(pot, i, j) && Before(pot, j, i))
  {
  }

  lemma BeforeTransitive(pot: seq<Pot>, i: nat, j: nat, k: nat)
    requires Before(pot, i, j) && Before(pot, j, k)
    ensures Before(pot, i, k)
  {
  }

  /** Earlier in the order means a potential that is not larger, in the
      order numpy sorts by. */
  lemma BeforeSortLe(pot: seq<Pot>, i: nat, j: nat)
    requires Before(pot, i, j)
    ensures SortLe(pot[i], pot[j])
  {
  }

  ghost predicate StrictlySorted(pot: seq<Pot>, s: seq<nat>)
  {
    forall a, b :: 0 <= a < b < |s| ==> Before(pot, s[a], s[b])
  }

  /** Every flat index below n exactly once. */
  ghost predicate IsPermutation(s: seq<nat>)
  {
    Distinct(s) && forall y: nat :: y in s <==> y < |s|
  }

  /** What `argsort(pot)` returns: every node exactly once, in order. */
  ghost predicate IsArgSort(pot: seq<Pot>, s: seq<nat>)
  {
    |s| == |pot| && IsPermutation(s) && StrictlySorted(pot, s)
  }

  /** Insertion of one index into a sorted list of indices. */
  function Insert(pot: seq<Pot>, x: nat, s: seq<nat>): (r: seq<nat>)
    ensures |r| == |s| + 1
    ensures forall y :: y in r <==> y == x || y in s
  {
    if s == [] then [x]
    else if Before(pot, x, s[0]) then [x] + s
    else
      assert forall y :: y in s[1..] ==> y in s;
      [s[0]] + Insert(pot, x, s[1..])
  }

  /** Inserting a new index into a sorted list keeps it sorted. */
  lemma {:induction false} InsertSorted(pot: seq<Pot>, x: nat, s: seq<nat>)
    requires x < |pot| && x !in s && forall k :: 0 <= k < |s| ==> s[k] < |pot|
    requires StrictlySorted(pot, s)
    ensures StrictlySorted(pot, Insert(pot, x, s))
  {
    if s == [] {
    } else if Before(pot, x, s[0]) {
      forall k | 1 <= k < |s| ensures Before(pot, x, s[k]) {
        BeforeTransitive(pot, x, s[0], s[k]);
      }
    } else {
      var t := Insert(pot, x, s[1..]);
      assert s[0] in s;
      BeforeTotal(pot, x, s[0]);
      InsertSorted(pot, x, s[1..]);
      forall k | 0 <= k < |t| ensures Before(pot, s[0], t[k]) {
        assert t[k] in t;
        if t[k] != x {
          var m :| 0 <= m < |s[1..]| && s[1..][m] == t[k];
          assert s[m + 1] == t[k];
        }
      }
      assert Insert(pot, x, s) == [s[0]] + t;
    }
  }

  /** The indices 0 .. k-1 in order. */
  function SortPrefix(pot: seq<Pot>, k: nat): (r: seq<nat>)
    requires k <= |pot|
    ensures |r| == k
    ensures forall y: nat :: y in r <==> y < k
    ensures StrictlySorted(pot, r)
  {
    if k == 0 then []
    else
      var s := SortPrefix(pot, k - 1);
      assert forall j :: 0 <= j < |s| ==> s[j] < |pot| by {
        forall j | 0 <= j < |s| ensures s[j] < |pot| {
          assert s[j] in s;
        }
      }
      InsertSorted(pot, k - 1, s);
      Insert(pot, k - 1, s)
  }

  /** Strictly sorted lists have no repeats. */
  lemma SortedDistinct(pot: seq<Pot>, s: seq<nat>)
    requires StrictlySorted(pot, s)
    ensures Distinct(s)
  {
    forall a, b | 0 <= a < b < |s| ensures s[a] != s[b] {
      if s[a] == s[b] {
        BeforeIrreflexive(pot, s[a]);
      }
    }
  }

  /** `np.argsort(pot_1D)`. */
  function ArgSort(pot: seq<Pot>): (s: seq<nat>)
    ensures IsArgSort(pot, s)
    ensures forall k :: 0 <= k < |s| ==> s[k] < |pot|
  {
    var s := SortPrefix(pot, |pot|);
    SortedDistinct(pot, s);
    assert forall k :: 0 <= k < |s| ==> s[k] in s;
    s
  }

  /** The order is strict and total, so two lists holding the same indices
      in order are the same list: `ArgSort` is the only possible answer. */
  lemma {:induction false} SortedUnique(pot: seq<Pot>, s: seq<nat>, t: seq<nat>)
    requires StrictlySorted(pot, s) && StrictlySorted(pot, t)
    requires forall y :: y in s <==> y in t
    ensures s == t
  {
    assert s != [] ==> s[0] in s;
    assert t != [] ==> t[0] in t;
    if s != [] && t != [] {
      var j :| 0 <= j < |t| && t[j] == s[0];
      var i :| 0 <= i < |s| && s[i] == t[0];
      assert i == 0 || Before(pot, s[0], t[0]);
      assert j == 0 || Before(pot, t[0], s[0]);
      BeforeAsymmetric(pot, s[0], t[0]);
      assert s[0] == t[0];
      SortedDistinct(pot, s);
      SortedDistinct(pot, t);
      forall y ensures y in s[1..] <==> y in t[1..] {
        if y in s[1..] {
          var i :| 0 <= i < |s[1..]| && s[1..][i] == y;
          assert s[i + 1] == y && y != s[0];
          assert y in t;
          var j :| 0 <= j < |t| && t[j] == y;
          assert j != 0 && t[1..][j - 1] == y;
        }
        if y in t[1..] {
          var j :| 0 <= j < |t[1..]| && t[1..][j] == y;
          assert t[j + 1] == y && y != t[0];
          assert y in s;
          var i :| 0 <= i < |s| && s[i] == y;
          assert i != 0 && s[1..][i - 1] == y;
        }
      }
      SortedUnique(pot, s[1..], t[1..]);
    }
  }

  lemma ArgSortUnique(pot: seq<Pot>, s: seq<nat>)
    requires IsArgSort(pot, s)
    ensures s == ArgSort(pot)
  {
    SortedUnique(pot, s, ArgSort(pot));
  }

  /** `sidx` lists the nodes by non-decreasing potential. */
  lemma ArgSortNonDecreasing(pot: seq<Pot>, a: nat, b: nat)
    requires a <= b < |pot|
    ensures SortLe(pot[ArgSort(pot)[a]], pot[ArgSort(pot)[b]])
  {
    if a < b {
      BeforeSortLe(pot, ArgSort(pot)[a], ArgSort(pot)[b]);
    }
  }

  function IndexOf(s: seq<nat>, v: nat): (k: nat)
    requires v in s
    ensures k < |s| && s[k] == v
    ensures forall j :: 0 <= j < k ==> s[j] != v
  {
    if s[0] == v then 0 else 1 + IndexOf(s[1..], v)
  }

  /** `inv_sidx = np.argsort(sidx)`: the position of every node in `sidx`. */
  function Invert(s: seq<nat>): (inv: seq<nat>)
    requires forall y: nat :: y in s <==> y < |s|
    ensures |inv| == |s|
    ensures forall i :: 0 <= i < |s| ==> inv[i] < |s| && s[inv[i]] == i
  {
    seq(|s|, i requires 0 <= i < |s| => IndexOf(s, i))
  }

  /** Ranks and `sidx` undo each other. */
  lemma InvertInverse(s: seq<nat>, k: nat)
    requires IsPermutation(s) && k < |s|
    ensures s[k] < |s| && Invert(s)[s[k]] == k
  {
    assert s[k] in s;
    var inv := Invert(s);
    assert s[inv[s[k]]] == s[k];
  }

  /** `Invert(s)` is what argsort returns on `s`: a permutation listing the
      positions of 0, 1, 2, ... in `s`, so `s` read through it ascends. */
  lemma InvertIsArgSort(s: seq<nat>)
    requires IsPermutation(s)
    ensures IsPermutation(Invert(s))
    ensures forall a, b :: 0 <= a < b < |s| ==> s[Invert(s)[a]] < s[Invert(s)[b]]
  {
    var inv := Invert(s);
    forall y: nat ensures y in inv <==> y < |inv| {
      if y < |s| {
        InvertInverse(s, y);
        assert inv[s[y]] == y;
      }
    }
  }

  /** A lower rank means earlier in the sort order, and conversely: popping
      the least rank picks the least potential, NaN last, ties by index. */
  lemma RankOrder(pot: seq<Pot>, i: nat, j: nat)
    requires i < |pot| && j < |pot| && i != j
    ensures Invert(ArgSort(pot))[i] < Invert(ArgSort(pot))[j] <==> Before(pot, i, j)
  {
    var s := ArgSort(pot);
    var inv := Invert(s);
    assert s[inv[i]] == i && s[inv[j]] == j;
    BeforeTotal(pot, i, j);
    if inv[j] < inv[i] {
      assert Before(pot, j, i);
    }
  }
}
