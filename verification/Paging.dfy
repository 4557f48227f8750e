/** LIMIT and OFFSET over an ORDER BY: what a client sees who walks a listing page by page,
    each page a query of its own. */
module Paging {
  import opened Wrappers
  import opened Ordering

  /** An arrangement the database may return for these rows under this ORDER BY. */
  ghost predicate IsOrderBy<T(!new)>(less: (T, T) -> bool, rows: multiset<T>, result: seq<T>) {
    multiset(result) == rows && SortedBy(less, result)
  }

  function Page<T>(s: seq<T>, limit: Option<nat>, offset: Option<nat>): seq<T> {
    var from := if offset.Some? && offset.value < |s| then offset.value else if offset.Some? then |s| else 0;
    var upTo := if limit.Some? && from + limit.value < |s| then from + limit.value else |s|;
    s[from..upTo]
  }

  /** A page is the rows from the offset on, as many as the limit allows: what stands before it
      is as long as the offset, unless the listing is shorter. */
  lemma PageExactly<T>(s: seq<T>, limit: Option<nat>, offset: Option<nat>)
    ensures exists before, after :: s == before + Page(s, limit, offset) + after
              && |before| == (if offset.None? then 0 else if offset.value < |s| then offset.value else |s|)
              && (limit.None? ==> after == [])
              && (limit.Some? ==> |Page(s, limit, offset)| <= limit.value)
              && (limit.Some? && |Page(s, limit, offset)| < limit.value ==> after == [])
  {
    var from := if offset.None? then 0 else if offset.value < |s| then offset.value else |s|;
    var n := |Page(s, limit, offset)|;
    assert s == s[..from] + s[from..][..n] + s[from..][n..];
    assert Page(s, limit, offset) == s[from..][..n];
  }

  /** Pages 0 to `k - 1` of size `n`, the i-th cut from the i-th query's own arrangement. */
  function Walk<T>(results: seq<seq<T>>, n: nat, k: nat): seq<T>
    requires k <= |results|
  {
    if k == 0 then [] else Walk(results, n, k - 1) + Page(results[k - 1], Some(n), Some((k - 1) * n))
  }

  lemma {:induction false} WalkIsPrefix<T(!new)>(less: (T, T) -> bool, rows: multiset<T>, results: seq<seq<T>>,
                                          listing: seq<T>, n: nat, k: nat)
    requires k <= |results| && IsOrderBy(less, rows, listing) && NoTies(less, listing)
    requires forall i :: 0 <= i < |results| ==> IsOrderBy(less, rows, results[i])
    ensures Walk(results, n, k) == listing[..if k * n < |listing| then k * n else |listing|]
  {
    if k > 0 {
      WalkIsPrefix(less, rows, results, listing, n, k - 1);
      SortedArrangementUnique(less, listing, results[k - 1]);
      assert k * n == (k - 1) * n + n;
    }
  }

  /** Without ties paging is exact: enough pages, each fetched by a query of its own, join
      to the one listing there is, every row once. */
  lemma PagesAreExact<T(!new)>(less: (T, T) -> bool, rows: multiset<T>, results: seq<seq<T>>, listing: seq<T>, n: nat)
    requires IsOrderBy(less, rows, listing) && NoTies(less, listing)
    requires forall i :: 0 <= i < |results| ==> IsOrderBy(less, rows, results[i])
    requires |listing| <= |results| * n
    ensures Walk(results, n, |results|) == listing && multiset(Walk(results, n, |results|)) == rows
  {
    WalkIsPrefix(less, rows, results, listing, n, |results|);
    assert listing[..|listing|] == listing;
  }

  /** The same for a set of rows that the ordering tells apart. */
  lemma PagesOfSetAreExact<T(!new)>(less: (T, T) -> bool, rows: set<T>, results: seq<seq<T>>, n: nat)
    requires forall x, y :: x in rows && y in rows && x != y ==> less(x, y) || less(y, x)
    requires |rows| <= |results| * n
    requires forall i :: 0 <= i < |results| ==> IsOrderBy(less, multiset(rows), results[i])
    ensures IsOrderBy(less, multiset(rows), Walk(results, n, |results|))
  {
    if results == [] {
      assert rows == {};
      assert multiset(Walk(results, n, 0)) == multiset(rows);
    } else {
      forall x, y | x in results[0] && y in results[0] && x != y ensures less(x, y) || less(y, x) {
        assert x in multiset(results[0]) && y in multiset(results[0]);
      }
      assert |results[0]| == |multiset(results[0])| == |rows|;
      PagesAreExact(less, multiset(rows), results, results[0], n);
    }
  }

  /** With a tie it is not: two rows that tie may each be shown first, and a walk with pages
      of one row shows one of them twice and the other never. */
  lemma TiesBreakPaging<T(!new)>(less: (T, T) -> bool, x: T, y: T)
    requires x != y && !less(x, y) && !less(y, x)
    ensures IsOrderBy(less, multiset{x, y}, [x, y]) && IsOrderBy(less, multiset{x, y}, [y, x])
    ensures Walk([[x, y], [y, x]], 1, 2) == [x, x]
  {
    var results := [[x, y], [y, x]];
    assert Walk(results, 1, 1) == Walk(results, 1, 0) + Page(results[0], Some(1), Some(0));
    assert Page(results[0], Some(1), Some(0)) == [x];
    assert Page(results[1], Some(1), Some(1)) == [x];
  }

  /** The rows of a query result in some order; the database promises none. */
  method Scan<T>(rows: set<T>) returns (s: seq<T>)
    ensures multiset(s) == multiset(rows)
  {
    s := [];
    var rest := rows;
    while rest != {}
      invariant rest <= rows
      invariant multiset(s) == multiset(rows - rest)
      decreases rest
    {
      var x :| x in rest;
      assert rows - (rest - {x}) == (rows - rest) + {x};
      rest := rest - {x};
      s := s + [x];
    }
    assert rows - {} == rows;
  }
}
