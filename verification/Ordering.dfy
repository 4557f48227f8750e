/** Orders and sorting shared by every component that sorts: Python's `sorted`, and
    the ORDER BY clauses whose ties the database may break either way. */
module Ordering {

  /** Python's `str` order: code point by code point, a proper prefix first. */
  predicate StrLess(a: string, b: string) {
    if b == "" then false
    else if a == "" then true
    else if a[0] != b[0] then a[0] < b[0]
    else StrLess(a[1..], b[1..])
  }

  lemma {:induction false} StrLessTotal(a: string, b: string)
    ensures a == b || StrLess(a, b) || StrLess(b, a)
  {
    if a != "" && b != "" && a[0] == b[0] {
      StrLessTotal(a[1..], b[1..]);
      assert a == [a[0]] + a[1..] && b == [b[0]] + b[1..];
    }
  }

  lemma {:induction false} StrLessAsymmetric(a: string, b: string)
    requires StrLess(a, b)
    ensures !StrLess(b, a) && a != b
  {
    if a != "" && a[0] == b[0] {
      StrLessAsymmetric(a[1..], b[1..]);
    }
  }

  lemma {:induction false} StrLessTransitive(a: string, b: string, c: string)
    requires StrLess(a, b) && StrLess(b, c)
    ensures StrLess(a, c)
  {
    if a != "" && a[0] == b[0] == c[0] {
      StrLessTransitive(a[1..], b[1..], c[1..]);
    }
  }

  /** `s` is in an order the key `less` allows: no later element is strictly below an
      earlier one. Elements that tie may stand either way round. */
  ghost predicate SortedBy<T(!new)>(less: (T, T) -> bool, s: seq<T>) {
    forall i, j :: 0 <= i < j < |s| ==> !less(s[j], s[i])
  }

  /** No two different elements of `s` tie. */
  ghost predicate NoTies<T(!new)>(less: (T, T) -> bool, s: seq<T>) {
    forall x, y :: x in s && y in s && x != y ==> less(x, y) || less(y, x)
  }

  ghost predicate Transitive<T(!new)>(less: (T, T) -> bool) {
    forall x, y, z :: less(x, y) && less(y, z) ==> less(x, z)
  }

  ghost predicate Asymmetric<T(!new)>(less: (T, T) -> bool) {
    forall x, y :: less(x, y) ==> !less(y, x)
  }

  lemma SameHead<T(!new)>(less: (T, T) -> bool, a: seq<T>, b: seq<T>)
    requires multiset(a) == multiset(b) && a != []
    requires SortedBy(less, a) && SortedBy(less, b) && NoTies(less, a)
    ensures b != [] && a[0] == b[0]
  {
    assert a[0] in multiset(b);
    assert a[0] in b && b[0] in multiset(a);
    assert b[0] in a;
    var i :| 0 <= i < |a| && a[i] == b[0];
    var j :| 0 <= j < |b| && b[j] == a[0];
  }

  lemma TailMultiset<T>(s: seq<T>)
    requires s != []
    ensures multiset(s[1..]) == multiset(s) - multiset{s[0]}
  {
    assert s == [s[0]] + s[1..];
  }

  /** Without ties the sorted arrangement of a collection is unique. */
  lemma {:induction false} SortedArrangementUnique<T(!new)>(less: (T, T) -> bool, a: seq<T>, b: seq<T>)
    requires multiset(a) == multiset(b)
    requires SortedBy(less, a) && SortedBy(less, b) && NoTies(less, a)
    ensures a == b
  {
    if a == [] {
      assert |multiset(b)| == |b|;
    } else {
      SameHead(less, a, b);
      TailMultiset(a);
      TailMultiset(b);
      SortedArrangementUnique(less, a[1..], b[1..]);
      assert a == [a[0]] + a[1..] && b == [b[0]] + b[1..];
    }
  }

  lemma DuplicateCounted<T>(s: seq<T>, i: nat, j: nat)
    requires i < j < |s| && s[i] == s[j]
    ensures multiset(s)[s[i]] >= 2
  {
    assert s == s[..j] + [s[j]] + s[j + 1..];
    assert s[i] == s[..j][i];
    assert multiset(s) == multiset(s[..j]) + multiset{s[j]} + multiset(s[j + 1..]);
  }

  function Insert<T>(less: (T, T) -> bool, x: T, s: seq<T>): (r: seq<T>)
    ensures multiset(r) == multiset{x} + multiset(s)
  {
    if s == [] || !less(s[0], x) then
      [x] + s
    else
      assert s == [s[0]] + s[1..];
      [s[0]] + Insert(less, x, s[1..])
  }

  /** The sorted arrangement Python's `sorted` returns when no two elements tie. */
  function Sort<T>(less: (T, T) -> bool, s: seq<T>): (r: seq<T>)
    ensures multiset(r) == multiset(s)
  {
    if s == [] then []
    else
      assert s == [s[0]] + s[1..];
      Insert(less, s[0], Sort(less, s[1..]))
  }

  lemma {:induction false} InsertSorted<T(!new)>(less: (T, T) -> bool, x: T, s: seq<T>)
    requires Transitive(less) && Asymmetric(less) && SortedBy(less, s)
    requires NoTies(less, [x] + s)
    ensures SortedBy(less, Insert(less, x, s))
  {
    var r := Insert(less, x, s);
    if s == [] {
    } else if !less(s[0], x) {
      forall j | 0 < j < |r| ensures !less(r[j], x) {
        var y := s[j - 1];
        assert x in [x] + s && s[0] in [x] + s;
        assert s[0] == x || less(x, s[0]);
        assert less(y, x) ==> less(y, s[0]);
      }
    } else {
      var tail := Insert(less, x, s[1..]);
      assert forall y :: y in [x] + s[1..] ==> y in [x] + s;
      InsertSorted(less, x, s[1..]);
      assert r == [s[0]] + tail;
      forall j | 0 < j < |r| ensures !less(r[j], s[0]) {
        assert tail[j - 1] in multiset(tail);
        assert tail[j - 1] == x || tail[j - 1] in s[1..];
      }
    }
  }

  lemma {:induction false} SortSorted<T(!new)>(less: (T, T) -> bool, s: seq<T>)
    requires Transitive(less) && Asymmetric(less) && NoTies(less, s)
    ensures SortedBy(less, Sort(less, s))
  {
    if s != [] {
      var tail := Sort(less, s[1..]);
      assert forall y :: y in s[1..] ==> y in s;
      SortSorted(less, s[1..]);
      forall y | y in [s[0]] + tail ensures y in s {
        assert y != s[0] ==> y in multiset(tail);
      }
      InsertSorted(less, s[0], tail);
    }
  }

  /** Sorting what is already sorted changes nothing. */
  lemma {:induction false} SortIsIdentity<T(!new)>(less: (T, T) -> bool, s: seq<T>)
    requires Transitive(less) && Asymmetric(less) && NoTies(less, s) && SortedBy(less, s)
    ensures Sort(less, s) == s
  {
    SortSorted(less, s);
    SortedArrangementUnique(less, s, Sort(less, s));
  }

  lemma StrLessLaws()
    ensures Transitive(StrLess) && Asymmetric(StrLess)
    ensures forall s: seq<string> :: NoTies(StrLess, s)
  {
    forall a, b, c | StrLess(a, b) && StrLess(b, c) ensures StrLess(a, c) {
      StrLessTransitive(a, b, c);
    }
    forall a, b | StrLess(a, b) ensures !StrLess(b, a) {
      StrLessAsymmetric(a, b);
    }
    forall a, b | a != b ensures StrLess(a, b) || StrLess(b, a) {
      StrLessTotal(a, b);
    }
  }
}
