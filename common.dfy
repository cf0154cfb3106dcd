/** Small shared vocabulary: an optional value, distinct sequences, and the
    sequence 0, 1, ..., n-1 of node indices. */
module Common {

  datatype Option<+T> = None | Some(value: T)

  /** No element occurs twice in `s`. */
  ghost predicate Distinct<T>(s: seq<T>)
  {
    forall i, j :: 0 <= i < j < |s| ==> s[i] != s[j]
  }

  /** The indices 0, 1, ..., n-1 in increasing order. */
  function Iota(n: nat): (r: seq<nat>)
    ensures |r| == n
    ensures forall i :: 0 <= i < n ==> r[i] == i
  {
    if n == 0 then [] else Iota(n - 1) + [n - 1]
  }

  function Max(a: nat, b: nat): nat { if a < b then b else a }

  function Min(a: nat, b: nat): nat { if a < b then a else b }

  /** A distinct sequence has as many distinct elements as it is long. */
  lemma {:induction false} DistinctCard<T>(s: seq<T>)
    requires Distinct(s)
    ensures |set x | x in s| == |s|
  {
    if s != [] {
      var t := s[1..];
      assert Distinct(t);
      DistinctCard(t);
      assert (set x | x in s) == (set x | x in t) + {s[0]};
      assert s[0] !in (set x | x in t);
    }
  }

  /** A distinct sequence whose elements all occur in a distinct sequence of
      the same length holds exactly the same elements. */
  lemma SameLengthSubsetCovers<T>(s: seq<T>, t: seq<T>)
    requires Distinct(s) && Distinct(t) && |s| == |t|
    requires forall x :: x in s ==> x in t
    ensures forall x :: x in t ==> x in s
  {
    DistinctCard(s);
    DistinctCard(t);
    var S, U := set x | x in s, set x | x in t;
    assert S <= U;
    if S != U {
      var y :| y in U && y !in S;
      ProperSubsetCard(S, U, y);
      assert false;
    }
    forall x | x in t ensures x in s {
      assert x in U;
    }
  }

  /** A distinct sequence shorter than a distinct sequence `t`, all of whose
      elements occur in `t`, misses some element of `t`. */
  lemma ShorterSubsetMisses<T>(s: seq<T>, t: seq<T>)
    requires Distinct(s) && Distinct(t) && |s| < |t|
    requires forall x :: x in s ==> x in t
    ensures exists x :: x in t && x !in s
  {
    DistinctCard(s);
    DistinctCard(t);
    var S, U := set x | x in s, set x | x in t;
    assert S <= U;
    assert S != U by { assert |S| < |U|; }
    var y :| y in U && y !in S;
    assert y in t && y !in s;
  }

  /** Removing a witness of strict inclusion shows the larger set is larger. */
  lemma ProperSubsetCard<T>(S: set<T>, U: set<T>, y: T)
    requires S <= U && y in U && y !in S
    ensures |S| < |U|
  {
    assert U == S + (U - S);
    assert y in U - S;
    assert |U| == |S| + |U - S|;
  }
}
