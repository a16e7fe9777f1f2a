/**
 * ORDER BY on two descending integer keys, as the queries use it:
 * saved_date DESC for the listing, relevance_score DESC, saved_date DESC for
 * search. Rows with equal keys may come in any order, so only the ordering
 * itself is promised.
 */
module Ranking {
  import opened Base

  /** The sort key of a row: primary key first, secondary key on ties. */
  datatype Rank = Rank(primary: int, secondary: int)

  /** a may come before b under ORDER BY primary DESC, secondary DESC. */
  predicate AtLeast(a: Rank, b: Rank) {
    a.primary > b.primary || (a.primary == b.primary && a.secondary >= b.secondary)
  }

  /** ids are in descending order of their ranks. */
  predicate Ranked(ids: seq<int>, rank: map<int, Rank>) {
    (forall i :: 0 <= i < |ids| ==> ids[i] in rank) &&
    forall i, j :: 0 <= i < j < |ids| ==> AtLeast(rank[ids[i]], rank[ids[j]])
  }

  /** Where x goes in a ranked sequence: after every row that ranks at least as high, before the rest. */
  function InsertionPoint(ids: seq<int>, rank: map<int, Rank>, x: int): (k: nat)
    requires Ranked(ids, rank) && x in rank
    ensures k <= |ids|
    ensures forall i :: 0 <= i < k ==> AtLeast(rank[ids[i]], rank[x])
    ensures forall i :: k <= i < |ids| ==> AtLeast(rank[x], rank[ids[i]])
    decreases |ids|
  {
    if ids == [] || AtLeast(rank[x], rank[ids[0]]) then 0
    else
      var k := InsertionPoint(ids[1..], rank, x);
      assert forall i :: 1 <= i < k + 1 ==> ids[i] == ids[1..][i - 1];
      assert forall i :: k + 1 <= i < |ids| ==> ids[i] == ids[1..][i - 1];
      1 + k
  }

  /**
   * The rows of keys in rank order, each exactly once: the effect of
   * ORDER BY, building the result one row at a time.
   */
  method SortByRank(keys: set<int>, rank: map<int, Rank>) returns (ids: seq<int>)
    requires keys <= rank.Keys
    ensures Distinct(ids) && |ids| == |keys|
    ensures Elements(ids) == keys
    ensures Ranked(ids, rank)
  {
    var order := SetToSeq(keys);
    ids := [];
    for n := 0 to |order|
      invariant Distinct(ids) && |ids| == n
      invariant Elements(ids) == Elements(order[..n])
      invariant Ranked(ids, rank)
    {
      var x := order[n];
      assert x !in Elements(order[..n]);
      assert Elements(order[..n + 1]) == Elements(order[..n]) + {x} by {
        assert order[..n + 1] == order[..n] + [x];
      }
      var k := InsertionPoint(ids, rank, x);
      var next := ids[..k] + [x] + ids[k..];
      assert forall i :: 0 <= i < k ==> next[i] == ids[i];
      assert next[k] == x;
      assert forall i :: k < i < |next| ==> next[i] == ids[i - 1];
      assert Elements(next) == Elements(ids) + {x};
      ids := next;
    }
    assert order[..|order|] == order;
  }
}
