/**
  `OrderByDescending` on a timestamp: the rows of a table, newest first.
  Rows are named by their keys; `dates` maps each key to the timestamp the
  listing orders by.
 */
module Ordering {

  /** Every key in `ids` has a timestamp, and timestamps never increase along `ids`. */
  predicate NewestFirstOrder(ids: seq<int>, dates: map<int, int>) {
    && (forall i :: 0 <= i < |ids| ==> ids[i] in dates)
    && (forall i, j :: 0 <= i < j < |ids| ==> dates[ids[i]] >= dates[ids[j]])
  }

  /** Prepending a row at least as new as every row of a newest-first sequence keeps it newest first. */
  lemma PrependNewest(h: int, t: seq<int>, dates: map<int, int>)
    requires h in dates
    requires NewestFirstOrder(t, dates)
    requires forall y :: y in t ==> dates[h] >= dates[y]
    ensures NewestFirstOrder([h] + t, dates)
  {
    var r := [h] + t;
    forall i, j | 0 <= i < j < |r|
      ensures dates[r[i]] >= dates[r[j]]
    {
      assert r[j] == t[j - 1];
      if i > 0 {
        assert r[i] == t[i - 1];
      }
    }
  }

  /** Places `x` into a newest-first sequence, before the first row that is not newer. */
  function Insert(ids: seq<int>, x: int, dates: map<int, int>): (r: seq<int>)
    requires x in dates
    requires NewestFirstOrder(ids, dates)
    ensures NewestFirstOrder(r, dates)
    ensures forall y :: y in r ==> y == x || y in ids
    ensures multiset(r) == multiset(ids) + multiset{x}
    decreases |ids|
  {
    if |ids| == 0 then [x]
    else if dates[x] >= dates[ids[0]] then
      PrependNewest(x, ids, dates);
      [x] + ids
    else
      var tail := Insert(ids[1..], x, dates);
      assert ids == [ids[0]] + ids[1..];
      PrependNewest(ids[0], tail, dates);
      [ids[0]] + tail
  }

  /** Every key of `dates` exactly once, newest first. */
  method NewestFirst(dates: map<int, int>) returns (ids: seq<int>)
    ensures multiset(ids) == multiset(dates.Keys)
    ensures NewestFirstOrder(ids, dates)
  {
    var rest := dates.Keys;
    ids := [];
    while rest != {}
      invariant rest <= dates.Keys
      invariant multiset(ids) + multiset(rest) == multiset(dates.Keys)
      invariant NewestFirstOrder(ids, dates)
      decreases rest
    {
      NonEmptyHasMember(rest);
      var x :| x in rest;
      assert multiset(rest) == multiset(rest - {x}) + multiset{x};
      ids := Insert(ids, x, dates);
      rest := rest - {x};
    }
  }

  lemma NonEmptyHasMember(s: set<int>)
    requires s != {}
    ensures exists y :: y in s
  {
    if forall y :: y !in s {
      assert false;
    }
  }

  /** A sequence that is a permutation of a set's elements holds each element once. */
  lemma PermutationOfSet(ids: seq<int>, keys: set<int>)
    requires multiset(ids) == multiset(keys)
    ensures forall i :: 0 <= i < |ids| ==> ids[i] in keys
    ensures forall k :: k in keys ==> k in ids
    ensures forall i, j :: 0 <= i < j < |ids| ==> ids[i] != ids[j]
  {
    forall i | 0 <= i < |ids|
      ensures ids[i] in keys
    {
      assert ids[i] in multiset(ids);
    }
    forall k | k in keys
      ensures k in ids
    {
      assert k in multiset(keys);
    }
    forall i, j | 0 <= i < j < |ids|
      ensures ids[i] != ids[j]
    {
      Occurrences(ids, i, j);
      assert multiset(keys)[ids[i]] <= 1;
    }
  }

  /** Two equal entries at different positions occur at least twice in the multiset. */
  lemma Occurrences(ids: seq<int>, i: int, j: int)
    requires 0 <= i < j < |ids|
    ensures ids[i] == ids[j] ==> multiset(ids)[ids[i]] >= 2
  {
    var x := ids[i];
    assert ids == ids[..i] + [ids[i]] + ids[i+1..j] + [ids[j]] + ids[j+1..];
    assert multiset(ids) == multiset(ids[..i]) + multiset{ids[i]} + multiset(ids[i+1..j]) + multiset{ids[j]} + multiset(ids[j+1..]);
  }
}
