/** Option, and the row-selection machinery shared by every table of the store. */
module Wrappers {

  /** A value or its absence: Python's `None` return, or a nullable column. */
  datatype Option<+T> = None | Some(value: T)
}

module Tables {
  import opened Wrappers

  /** A primary key. All tables draw their keys from one increasing sequence. */
  type Id = nat

  ghost predicate Increasing(ids: seq<Id>) {
    forall i, j :: 0 <= i < j < |ids| ==> ids[i] < ids[j]
  }

  /** The keys below `bound` of the rows of `m` that satisfy `p`, in ascending order.
      A query or relationship without ORDER BY is taken to return rows in key order. */
  function Select<R>(m: map<Id, R>, p: (Id, R) -> bool, bound: nat): (ids: seq<Id>)
    ensures forall k :: 0 <= k < |ids| ==> ids[k] < bound && ids[k] in m && p(ids[k], m[ids[k]])
    ensures forall i :: i in m && i < bound && p(i, m[i]) ==> i in ids
    ensures Increasing(ids)
    decreases bound
  {
    if bound == 0 then []
    else
      var rest := Select(m, p, bound - 1);
      if bound - 1 in m && p(bound - 1, m[bound - 1]) then rest + [bound - 1] else rest
  }

  /** The first row, in key order, that satisfies `p`: a loop that returns on its first match,
      or `one_or_none` when at most one row can match. */
  function FirstWhere<R>(m: map<Id, R>, p: (Id, R) -> bool, bound: nat): (r: Option<Id>)
    ensures r.Some? ==> r.value < bound && r.value in m && p(r.value, m[r.value])
    ensures r.Some? ==> forall j :: j in m && j < r.value ==> !p(j, m[j])
    ensures r.None? ==> forall i :: i in m && i < bound ==> !p(i, m[i])
  {
    var ids := Select(m, p, bound);
    if ids == [] then None
    else
      Some(ids[0])
  }

  ghost predicate NoDuplicates<T>(xs: seq<T>) {
    forall i, j :: 0 <= i < j < |xs| ==> xs[i] != xs[j]
  }

  /** Two duplicate-free sequences with no common element concatenate without duplicates. */
  lemma NoDuplicatesConcat<T>(a: seq<T>, b: seq<T>)
    requires NoDuplicates(a) && NoDuplicates(b)
    requires forall x :: x in a ==> x !in b
    ensures NoDuplicates(a + b)
  {
    forall i, j | 0 <= i < j < |a + b|
      ensures (a + b)[i] != (a + b)[j]
    {
      if j < |a| {
      } else if i >= |a| {
        assert (a + b)[i] == b[i - |a|] && (a + b)[j] == b[j - |a|];
      } else {
        assert (a + b)[i] in a && (a + b)[j] in b;
      }
    }
  }

  /** Removing a key just added to a table gives the table back. */
  lemma RemoveAdded<R>(m: map<Id, R>, k: Id, v: R)
    requires k !in m
    ensures m[k := v] - {k} == m
  {
    assert (m[k := v] - {k}).Keys == m.Keys;
  }
}
