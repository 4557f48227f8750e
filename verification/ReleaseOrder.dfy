/** Versions as releases: dotted numbers, compared number by number, beside the text order
    the seeding tool sorts by. */
module ReleaseOrder {
  import opened Ordering

  predicate IsDigit(c: char) { '0' <= c <= '9' }

  predicate Dotted(version: string) {
    forall i :: 0 <= i < |version| ==> IsDigit(version[i]) || version[i] == '.'
  }

  /** The numbers of a dotted version, `n` being what has been read of the first. */
  function Numbers(version: string, n: nat): (r: seq<nat>)
    requires Dotted(version)
    ensures r != []
  {
    if version == "" then [n]
    else if version[0] == '.' then [n] + Numbers(version[1..], 0)
    else Numbers(version[1..], 10 * n + (version[0] as int - '0' as int))
  }

  predicate NumbersLess(a: seq<nat>, b: seq<nat>) {
    b != [] && (a == [] || a[0] < b[0] || (a[0] == b[0] && NumbersLess(a[1..], b[1..])))
  }

  /** `v` is an older release than `w`. */
  predicate ReleaseLess(v: string, w: string)
    requires Dotted(v) && Dotted(w)
  {
    NumbersLess(Numbers(v, 0), Numbers(w, 0))
  }

  /** What lies between two releases is newer than the one or older than the other. */
  lemma {:induction false} NumbersLessSplits(a: seq<nat>, b: seq<nat>, c: seq<nat>)
    ensures !NumbersLess(a, a)
    ensures NumbersLess(a, c) ==> NumbersLess(a, b) || NumbersLess(b, c)
  {
    if a != [] {
      NumbersLessSplits(a[1..], if b == [] then [] else b[1..], if c == [] then [] else c[1..]);
    }
  }

  lemma ReleaseLessSplits(u: string, v: string, w: string)
    requires Dotted(u) && Dotted(v) && Dotted(w)
    ensures !ReleaseLess(u, u)
    ensures ReleaseLess(u, w) ==> ReleaseLess(u, v) || ReleaseLess(v, w)
  {
    NumbersLessSplits(Numbers(u, 0), Numbers(v, 0), Numbers(w, 0));
  }

  /** The same number of digits in every place. */
  predicate SameShape(v: string, w: string) {
    |v| == |w| && forall i :: 0 <= i < |v| ==> (v[i] == '.' <==> w[i] == '.')
  }

  lemma Tails(v: string, w: string)
    requires Dotted(v) && Dotted(w) && SameShape(v, w) && v != ""
    ensures Dotted(v[1..]) && Dotted(w[1..]) && SameShape(v[1..], w[1..])
    ensures v[0] == '.' <==> w[0] == '.'
  {}

  /** A smaller start of the first number makes the whole number smaller. */
  lemma {:induction false} SmallerStart(v: string, w: string, m: nat, n: nat)
    requires Dotted(v) && Dotted(w) && SameShape(v, w) && m < n
    ensures Numbers(v, m)[0] < Numbers(w, n)[0]
  {
    if v != "" && v[0] != '.' {
      Tails(v, w);
      SmallerStart(v[1..], w[1..], 10 * m + (v[0] as int - '0' as int), 10 * n + (w[0] as int - '0' as int));
    }
  }

  lemma {:induction false} SameStart(v: string, w: string, n: nat)
    requires Dotted(v) && Dotted(w) && SameShape(v, w)
    ensures NumbersLess(Numbers(v, n), Numbers(w, n)) <==> StrLess(v, w)
  {
    if v != "" {
      Tails(v, w);
      if v[0] == '.' {
        assert Numbers(v, n) == [n] + Numbers(v[1..], 0) && Numbers(w, n) == [n] + Numbers(w[1..], 0);
        SameStart(v[1..], w[1..], 0);
      } else {
        var (d, e) := (v[0] as int - '0' as int, w[0] as int - '0' as int);
        if d == e {
          SameStart(v[1..], w[1..], 10 * n + d);
        } else if d < e {
          SmallerStart(v[1..], w[1..], 10 * n + d, 10 * n + e);
        } else {
          SmallerStart(w[1..], v[1..], 10 * n + e, 10 * n + d);
        }
      }
    }
  }

  /** Between versions with the same number of digits in every place, text order is release
      order. */
  lemma SameShapeAgrees(v: string, w: string)
    requires Dotted(v) && Dotted(w) && SameShape(v, w)
    ensures ReleaseLess(v, w) <==> StrLess(v, w)
  {
    SameStart(v, w, 0);
  }
}
