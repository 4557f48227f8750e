/** The keys under which ratios are reported, `name:value`: what becomes of two ratios whose
    keys are the same text. */
module MetricKeys {
  import opened Wrappers
  import opened Ordering
  import opened PopulationWindow
  import opened AdverseImpact

  /** Every ratio is found under its own key. */
  ghost predicate EveryRatioRecorded(groups: seq<GroupCount>, minimum: nat, names: seq<string>,
                                     metrics: map<string, real>)
    requires minimum > 0
  {
    forall name, value, ratio :: name in names && IsRatio(groups, minimum, name, value, ratio) ==>
      MetricKey(name, value) in metrics && metrics[MetricKey(name, value)] == ratio
  }

  /** Attributes and values whose keys collide have equal ratios. */
  ghost predicate CollisionsAgree(groups: seq<GroupCount>, minimum: nat, names: seq<string>)
    requires minimum > 0
  {
    forall m, n, key, q, r ::
      m in names && n in names && Carries(groups, minimum, m, key, q) && Carries(groups, minimum, n, key, r) ==> q == r
  }

  /** Every ratio is recorded under its key if and only if colliding keys have equal ratios. */
  lemma RecordedExactly(groups: seq<GroupCount>, minimum: nat, names: seq<string>, metrics: map<string, real>)
    requires minimum > 0 && MetricsOf(groups, minimum, names, metrics)
    ensures EveryRatioRecorded(groups, minimum, names, metrics) <==> CollisionsAgree(groups, minimum, names)
  {
    if CollisionsAgree(groups, minimum, names) {
      forall name, value, ratio | name in names && IsRatio(groups, minimum, name, value, ratio)
        ensures MetricKey(name, value) in metrics && metrics[MetricKey(name, value)] == ratio
      {
        var key := MetricKey(name, value);
        assert Carries(groups, minimum, name, key, ratio);
        assert MetricAt(groups, minimum, names, metrics, key);
        var last :| LastCarrier(groups, minimum, names, last, key, metrics[key]);
      }
    }
  }

  predicate NoColon(name: string) {
    forall i :: 0 <= i < |name| ==> name[i] != ':'
  }

  function FirstColon(key: string): nat {
    if key == "" || key[0] == ':' then 0 else 1 + FirstColon(key[1..])
  }

  lemma {:induction false} FirstColonOf(name: string, value: string)
    requires NoColon(name)
    ensures FirstColon(MetricKey(name, value)) == |name|
  {
    if name == "" {
      assert MetricKey(name, value)[0] == ':';
    } else {
      assert MetricKey(name, value)[1..] == MetricKey(name[1..], value);
      FirstColonOf(name[1..], value);
    }
  }

  lemma KeysApart(m: string, v: string, n: string, w: string)
    requires NoColon(m) && NoColon(n) && MetricKey(m, v) == MetricKey(n, w)
    ensures m == n && v == w
  {
    FirstColonOf(m, v);
    FirstColonOf(n, w);
    assert MetricKey(m, v)[..|m|] == m && MetricKey(n, w)[..|n|] == n;
    MetricKeyInjective(m, v, w);
  }

  lemma RatioUnique(groups: seq<GroupCount>, minimum: nat, name: string, value: string, q: real, r: real)
    requires minimum > 0 && IsRatio(groups, minimum, name, value, q) && IsRatio(groups, minimum, name, value, r)
    ensures q == r
  {
    var rs :| IsComparison(OfAttribute(groups, name), minimum, Some(rs)) && value in rs && rs[value] == q;
    RatioListed(groups, minimum, name, rs, value, r);
  }

  /** Which they have when no DIRECT attribute's name contains a colon. */
  lemma ColonFreeRecorded(s: Scope, es: seq<DecisionEvent>, direct: seq<string>, groups: seq<GroupCount>, minimum: nat,
                          names: seq<string>, metrics: map<string, real>)
    requires minimum > 0 && ExactCounts(s, es, direct, groups) && MetricsOf(groups, minimum, names, metrics)
    requires forall name :: name in names <==> OfAttribute(groups, name) != []
    requires forall name :: name in direct ==> NoColon(name)
    ensures EveryRatioRecorded(groups, minimum, names, metrics)
  {
    forall m, n, key, q, r
      | m in names && n in names && Carries(groups, minimum, m, key, q) && Carries(groups, minimum, n, key, r)
      ensures q == r
    {
      assert m in direct && n in direct;
      var v :| key == MetricKey(m, v) && IsRatio(groups, minimum, m, v, q);
      var w :| key == MetricKey(n, w) && IsRatio(groups, minimum, n, w, r);
      KeysApart(m, v, n, w);
      RatioUnique(groups, minimum, m, v, q, r);
    }
    RecordedExactly(groups, minimum, names, metrics);
  }

  lemma PairRatio(name: string, value: string, approved: nat, other: string)
    requires value != other && approved <= 30
    ensures IsComparison(Pair(name, value, approved, other), 30,
              Some(map[value := approved as real / 30.0, other := 1.0]))
  {
    var rates := map[value := approved as real / 30.0, other := 1.0];
    PairEligible(name, value, approved, other);
    PairRates(name, value, approved, other);
    assert rates[other] == 1.0 && IsMax(rates, 1.0);
    assert Ratios(rates, 1.0) == rates;
    assert OverTheHighest(rates, rates);
  }

  /** Values `b:c` and `x` of attribute `a`, values `c` and `d` of attribute `a:b`. */
  function CollidingGroups(): seq<GroupCount> {
    Pair("a", "b:c", 30, "x") + Pair("a:b", "c", 15, "d")
  }

  lemma CollidingOf()
    ensures OfAttribute(CollidingGroups(), "a") == Pair("a", "b:c", 30, "x")
    ensures OfAttribute(CollidingGroups(), "a:b") == Pair("a:b", "c", 15, "d")
  {
    var (xs, ys) := (Pair("a", "b:c", 30, "x"), Pair("a:b", "c", 15, "d"));
    assert |"a"| != |"a:b"|;
    OfAttributeAppend(xs, ys, "a");
    OfAttributeAppend(xs, ys, "a:b");
    OfAttributeUniform(xs, "a", "a");
    OfAttributeUniform(xs, "a", "a:b");
    OfAttributeUniform(ys, "a:b", "a");
    OfAttributeUniform(ys, "a:b", "a:b");
    assert xs + [] == xs && [] + ys == ys;
  }

  /** A value's ratio, from the comparison of its attribute. */
  lemma RatioOf(groups: seq<GroupCount>, minimum: nat, name: string, rs: map<string, real>, value: string)
    requires minimum > 0 && IsComparison(OfAttribute(groups, name), minimum, Some(rs)) && value in rs
    ensures IsRatio(groups, minimum, name, value, rs[value])
  {}

  lemma CollidingRatios()
    ensures IsRatio(CollidingGroups(), 30, "a", "b:c", 1.0)
    ensures IsRatio(CollidingGroups(), 30, "a:b", "c", 0.5)
  {
    assert "b:c"[0] != "x"[0] && "c"[0] != "d"[0];
    CollidingOf();
    PairRatio("a", "b:c", 30, "x");
    RatioOf(CollidingGroups(), 30, "a", map["b:c" := 30 as real / 30.0, "x" := 1.0], "b:c");
    PairRatio("a:b", "c", 15, "d");
    RatioOf(CollidingGroups(), 30, "a:b", map["c" := 15 as real / 30.0, "d" := 1.0], "c");
  }

  /** What the last name in the list carries, it is the last to carry. */
  lemma LastNameCarries(groups: seq<GroupCount>, minimum: nat, first: string, last: string, value: string, ratio: real)
    requires minimum > 0 && StrLess(first, last) && IsRatio(groups, minimum, last, value, ratio)
    ensures LastCarrier(groups, minimum, [first, last], last, MetricKey(last, value), ratio)
  {
    assert Carries(groups, minimum, last, MetricKey(last, value), ratio);
    assert last in [first, last];
  }

  lemma LostRatio(groups: seq<GroupCount>, minimum: nat, metrics: map<string, real>, m: string, v: string, n: string,
                  w: string, q: real, r: real)
    requires minimum > 0 && MetricsOf(groups, minimum, [m, n], metrics) && StrLess(m, n)
    requires IsRatio(groups, minimum, m, v, q) && IsRatio(groups, minimum, n, w, r)
               && MetricKey(m, v) == MetricKey(n, w) && q != r
    ensures MetricKey(m, v) in metrics && metrics[MetricKey(m, v)] == r
    ensures !EveryRatioRecorded(groups, minimum, [m, n], metrics)
  {
    LastNameCarries(groups, minimum, m, n, w, r);
    assert MetricAt(groups, minimum, [m, n], metrics, MetricKey(n, w));
    assert m in [m, n];
  }

  lemma NamesCollide()
    ensures StrLess("a", "a:b") && MetricKey("a", "b:c") == MetricKey("a:b", "c")
  {
    assert "a:b"[0] == "a"[0] && "a"[1..] == "" && "a:b"[1..] == ":b";
    assert MetricKey("a", "b:c") == "a:b:c" == MetricKey("a:b", "c");
  }

  /** There the ratio of value `b:c` is lost: its key holds the other attribute's. */
  lemma CollisionLosesARatio(metrics: map<string, real>)
    requires MetricsOf(CollidingGroups(), 30, ["a", "a:b"], metrics)
    ensures IsRatio(CollidingGroups(), 30, "a", "b:c", 1.0)
    ensures MetricKey("a", "b:c") in metrics && metrics[MetricKey("a", "b:c")] == 0.5
    ensures !EveryRatioRecorded(CollidingGroups(), 30, ["a", "a:b"], metrics)
  {
    CollidingRatios();
    NamesCollide();
    LostRatio(CollidingGroups(), 30, metrics, "a", "b:c", "a:b", "c", 1.0, 0.5);
  }
}
