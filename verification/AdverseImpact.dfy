/** The adverse impact ratio policy: the four-fifths rule of 29 CFR 1607.4(D), over exact
    rationals, with thresholds a binding may override. */
module AdverseImpact {
  import opened Wrappers
  import opened Ordering
  import opened Schemas
  import opened PopulationWindow
  import Paging

  /** A Python float, as far as the policy looks at one. */
  datatype Float = Finite(r: real) | PosInf | NegInf | NaN

  const RATIO_THRESHOLD: real := 0.8
  const MINIMUM_GROUP_SIZE: nat := 30
  const STRUCTURAL_MINIMUM_GROUP_SIZE: nat := 2

  datatype Notice = ThresholdIgnored | GroupSizeIgnored

  predicate UsableThreshold(f: Float) {
    f.Finite? && 0.0 < f.r <= 1.0
  }

  predicate UsableGroupSize(f: Float) {
    f.Finite? && f.r >= 1.0
  }

  /** An override counts exactly when it is in range; otherwise the built-in value does. */
  function EffectiveThreshold(parameters: map<string, Float>): (t: real)
    ensures 0.0 < t <= 1.0
  {
    if "threshold" in parameters && UsableThreshold(parameters["threshold"]) then
      parameters["threshold"].r
    else RATIO_THRESHOLD
  }

  function EffectiveGroupSize(parameters: map<string, Float>): (n: nat)
    ensures n >= 2
  {
    if "minimum_group_size" in parameters && UsableGroupSize(parameters["minimum_group_size"]) then
      if parameters["minimum_group_size"].r < 2.0 then 2 else parameters["minimum_group_size"].r.Floor
    else MINIMUM_GROUP_SIZE
  }

  /** A finite override in (0, 1] is the threshold; with any other map it is four fifths. */
  ghost predicate IsThreshold(parameters: map<string, Float>, threshold: real) {
    && (forall r :: "threshold" in parameters && parameters["threshold"] == Finite(r) && 0.0 < r <= 1.0 ==>
          threshold == r)
    && ((forall r :: "threshold" in parameters && parameters["threshold"] == Finite(r) ==> r <= 0.0 || r > 1.0) ==>
          threshold == 0.8)
  }

  /** A finite override of at least 1 counts, rounded down, but never below 2; with any other map
      the size is 30. */
  ghost predicate IsGroupSize(parameters: map<string, Float>, size: int) {
    && (forall r :: "minimum_group_size" in parameters && parameters["minimum_group_size"] == Finite(r) && r >= 1.0 ==>
          (size == 2 && r < 3.0) || (size >= 2 && size as real <= r && r < size as real + 1.0))
    && ((forall r :: "minimum_group_size" in parameters && parameters["minimum_group_size"] == Finite(r) ==> r < 1.0)
          ==> size == 30)
  }

  lemma OverridesExactly(parameters: map<string, Float>)
    ensures IsThreshold(parameters, EffectiveThreshold(parameters))
    ensures IsGroupSize(parameters, EffectiveGroupSize(parameters))
  {
    if "threshold" in parameters && parameters["threshold"].Finite? {
      assert parameters["threshold"] == Finite(parameters["threshold"].r);
    }
    if "minimum_group_size" in parameters && parameters["minimum_group_size"].Finite? {
      assert parameters["minimum_group_size"] == Finite(parameters["minimum_group_size"].r);
    }
  }

  lemma OverridesUnique(parameters: map<string, Float>, size: nat, threshold: real)
    requires IsGroupSize(parameters, size) && IsThreshold(parameters, threshold)
    ensures size == EffectiveGroupSize(parameters) && threshold == EffectiveThreshold(parameters)
  {
    OverridesExactly(parameters);
    if "threshold" in parameters && parameters["threshold"].Finite? {
      assert parameters["threshold"] == Finite(parameters["threshold"].r);
    }
    if "minimum_group_size" in parameters && parameters["minimum_group_size"].Finite? {
      assert parameters["minimum_group_size"] == Finite(parameters["minimum_group_size"].r);
    }
  }

  /** `_resolve_parameters`. Whatever the override map holds, the threshold lies in (0, 1],
      at least two decisions are asked of a group, and an override that is not used is
      noted. */
  method ResolveParameters(parameters: map<string, Float>)
    returns (threshold: real, minimumGroupSize: nat, notices: seq<Notice>)
    ensures 0.0 < threshold <= 1.0 && minimumGroupSize >= 2
    ensures threshold == EffectiveThreshold(parameters) && minimumGroupSize == EffectiveGroupSize(parameters)
    ensures IsThreshold(parameters, threshold) && IsGroupSize(parameters, minimumGroupSize)
    ensures ThresholdIgnored in notices <==>
              "threshold" in parameters && (parameters["threshold"].Finite? ==>
                parameters["threshold"].r <= 0.0 || parameters["threshold"].r > 1.0)
    ensures GroupSizeIgnored in notices <==>
              "minimum_group_size" in parameters && (parameters["minimum_group_size"].Finite? ==>
                parameters["minimum_group_size"].r < 1.0)
  {
    notices := [];
    var raw := if "threshold" in parameters then parameters["threshold"] else Finite(RATIO_THRESHOLD);
    if !raw.Finite? || !(0.0 < raw.r <= 1.0) {
      notices := notices + [ThresholdIgnored];
      raw := Finite(RATIO_THRESHOLD);
    }
    threshold := raw.r;
    var rawSize :=
      if "minimum_group_size" in parameters then parameters["minimum_group_size"]
      else Finite(MINIMUM_GROUP_SIZE as real);
    if !rawSize.Finite? || rawSize.r < 1.0 {
      notices := notices + [GroupSizeIgnored];
      minimumGroupSize := MINIMUM_GROUP_SIZE;
    } else {
      minimumGroupSize := rawSize.r.Floor;
    }
    if minimumGroupSize < STRUCTURAL_MINIMUM_GROUP_SIZE {
      minimumGroupSize := STRUCTURAL_MINIMUM_GROUP_SIZE;
    }
  }

  /** `group_by_attribute`. */
  method GroupByAttribute(groups: seq<GroupCount>) returns (byAttribute: map<string, seq<GroupCount>>)
    ensures forall name :: name in byAttribute <==> OfAttribute(groups, name) != []
    ensures forall name :: name in byAttribute ==> byAttribute[name] == OfAttribute(groups, name)
  {
    byAttribute := map[];
    for i := 0 to |groups|
      invariant forall name :: name in byAttribute <==> OfAttribute(groups[..i], name) != []
      invariant forall name :: name in byAttribute ==> byAttribute[name] == OfAttribute(groups[..i], name)
    {
      assert groups[..i + 1][..i] == groups[..i];
      var g := groups[i];
      byAttribute := byAttribute[g.attributeName :=
        (if g.attributeName in byAttribute then byAttribute[g.attributeName] else []) + [g]];
    }
    assert groups[..|groups|] == groups;
  }

  function Eligible(groups: seq<GroupCount>, minimum: nat): (r: seq<GroupCount>)
    ensures forall g :: g in r <==> g in groups && g.totalCount >= minimum
  {
    if groups == [] then []
    else
      var n := |groups| - 1;
      assert groups == groups[..n] + [groups[n]];
      Eligible(groups[..n], minimum) + if groups[n].totalCount >= minimum then [groups[n]] else []
  }

  function Rate(g: GroupCount): (r: real)
    requires g.totalCount > 0
    ensures r >= 0.0
  {
    g.favorableCount as real / g.totalCount as real
  }

  /** The `rates` dict of one attribute: a repeated value keeps its last rate. */
  function Rates(groups: seq<GroupCount>): (r: map<string, real>)
    requires forall g :: g in groups ==> g.totalCount > 0
    ensures forall v :: v in r ==> r[v] >= 0.0
    ensures forall v :: v in r <==> exists g :: g in groups && g.attributeValue == v
  {
    if groups == [] then map[]
    else
      var n := |groups| - 1;
      assert groups == groups[..n] + [groups[n]];
      Rates(groups[..n])[groups[n].attributeValue := Rate(groups[n])]
  }

  predicate FallsShort(rate: real, threshold: real, other: real) {
    rate < threshold * other
  }

  /** Strictly: a rate at the threshold is not short. */
  lemma FallsShortStrictly(rate: real, threshold: real, other: real)
    ensures FallsShort(rate, threshold, other) <==> threshold * other - rate > 0.0
    ensures FallsShort(0.85, 0.9, 1.0) && !FallsShort(0.85, 0.8, 1.0) && !FallsShort(0.8, 0.8, 1.0)
  {}

  /** Some value's rate is strictly below the threshold times another's. */
  ghost predicate Disparity(rates: map<string, real>, threshold: real) {
    exists v, w :: v in rates && w in rates && FallsShort(rates[v], threshold, rates[w])
  }

  function RatesOf(groups: seq<GroupCount>, minimum: nat): map<string, real>
    requires minimum > 0
  {
    Rates(Eligible(groups, minimum))
  }

  predicate IsMax(rates: map<string, real>, top: real) {
    (exists v :: v in rates && rates[v] == top) && forall v :: v in rates ==> rates[v] <= top
  }

  method MaxRate(rates: map<string, real>) returns (top: real)
    requires rates != map[]
    ensures IsMax(rates, top)
  {
    var rest := rates.Keys;
    var first :| first in rest;
    top := rates[first];
    rest := rest - {first};
    while rest != {}
      invariant rest <= rates.Keys
      invariant exists v :: v in rates && rates[v] == top
      invariant forall v :: v in rates && v !in rest ==> rates[v] <= top
      decreases rest
    {
      var v :| v in rest;
      rest := rest - {v};
      if rates[v] > top {
        top := rates[v];
      }
    }
  }

  lemma RatioBelow(rate: real, top: real, threshold: real)
    requires top > 0.0
    ensures rate / top < threshold <==> rate < threshold * top
  {
    var q := rate / top;
    assert q * top == rate;
    if q < threshold {
      assert q * top < threshold * top;
    } else {
      assert q * top >= threshold * top;
    }
  }

  lemma ScaledUpTo(threshold: real, rate: real, top: real)
    requires 0.0 < threshold <= 1.0 && 0.0 <= rate <= top
    ensures threshold * rate <= threshold * top && threshold * rate <= rate
  {
    assert threshold * (top - rate) >= 0.0;
    assert (1.0 - threshold) * rate >= 0.0;
  }

  /** Below some other's share is below the highest one's share. */
  lemma BelowTheTop(rate: real, other: real, top: real, threshold: real)
    requires 0.0 < threshold <= 1.0 && 0.0 <= rate && 0.0 <= other <= top
    requires rate < threshold * other
    ensures top > 0.0 && rate / top < threshold
  {
    ScaledUpTo(threshold, other, top);
    RatioBelow(rate, top, threshold);
  }

  /** A value's rate over the highest rate of its attribute. */
  function Ratios(rates: map<string, real>, top: real): map<string, real>
    requires top > 0.0
  {
    map v | v in rates :: rates[v] / top
  }

  predicate SomeBelow(ratios: map<string, real>, threshold: real) {
    exists v :: v in ratios && ratios[v] < threshold
  }

  lemma DisparityIsBelow(rates: map<string, real>, top: real, threshold: real, v: string, w: string)
    requires IsMax(rates, top) && 0.0 < threshold <= 1.0
    requires v in rates && w in rates && rates[v] >= 0.0 && rates[w] >= 0.0
    requires FallsShort(rates[v], threshold, rates[w])
    ensures top > 0.0 && SomeBelow(Ratios(rates, top), threshold)
  {
    BelowTheTop(rates[v], rates[w], top, threshold);
    assert Ratios(rates, top)[v] < threshold;
  }

  lemma BelowIsDisparity(rates: map<string, real>, top: real, threshold: real)
    requires IsMax(rates, top) && top > 0.0 && SomeBelow(Ratios(rates, top), threshold)
    ensures Disparity(rates, threshold)
  {
    var m :| m in rates && rates[m] == top;
    var v :| v in rates && Ratios(rates, top)[v] < threshold;
    RatioBelow(rates[v], top, threshold);
    assert FallsShort(rates[v], threshold, rates[m]);
  }

  /** Comparing every rate with the highest finds a disparity between some two values
      exactly when there is one. */
  lemma AgainstTheHighest(rates: map<string, real>, top: real, threshold: real)
    requires IsMax(rates, top) && 0.0 < threshold <= 1.0
    requires forall v :: v in rates ==> rates[v] >= 0.0
    ensures Disparity(rates, threshold) <==> top > 0.0 && SomeBelow(Ratios(rates, top), threshold)
  {
    if Disparity(rates, threshold) {
      var v, w :| v in rates && w in rates && FallsShort(rates[v], threshold, rates[w]);
      DisparityIsBelow(rates, top, threshold, v, w);
    }
    if top > 0.0 && SomeBelow(Ratios(rates, top), threshold) {
      BelowIsDisparity(rates, top, threshold);
    }
  }

  lemma AloneNoDisparity(rates: map<string, real>, threshold: real)
    requires 0.0 < threshold <= 1.0
    requires forall v :: v in rates ==> rates[v] >= 0.0
    requires forall v, w :: v in rates && w in rates ==> v == w
    ensures !Disparity(rates, threshold)
  {
    forall v | v in rates ensures rates[v] >= threshold * rates[v] {
      ScaledUpTo(threshold, rates[v], rates[v]);
    }
  }

  ghost predicate OverTheHighest(rates: map<string, real>, ratios: map<string, real>) {
    exists top :: top > 0.0 && IsMax(rates, top) && ratios == Ratios(rates, top)
  }

  /** What the policy concludes about one attribute: None when it cannot be compared, since
      fewer than two of its groups are large enough or nobody in those was approved. */
  ghost predicate IsComparison(groups: seq<GroupCount>, minimum: nat, ratios: Option<map<string, real>>)
    requires minimum > 0
  {
    var rates := RatesOf(groups, minimum);
    match ratios
    case Some(rs) =>
      && |Eligible(groups, minimum)| >= 2
      && OverTheHighest(rates, rs)
    case None =>
      |Eligible(groups, minimum)| < 2 || IsMax(rates, 0.0)
  }

  /** The comparison shows a disparity exactly when there is one between some two rates. */
  lemma ComparisonDecides(groups: seq<GroupCount>, minimum: nat, ratios: Option<map<string, real>>, threshold: real)
    requires minimum > 0 && 0.0 < threshold <= 1.0 && IsComparison(groups, minimum, ratios)
    ensures Disparity(RatesOf(groups, minimum), threshold) <==> ratios.Some? && SomeBelow(ratios.value, threshold)
  {
    var eligible := Eligible(groups, minimum);
    var rates := Rates(eligible);
    if |eligible| < 2 {
      AloneNoDisparity(rates, threshold);
    } else {
      var top :| top >= 0.0 && IsMax(rates, top) && (ratios == None ==> top == 0.0)
                   && (ratios.Some? ==> top > 0.0 && ratios.value == Ratios(rates, top));
      AgainstTheHighest(rates, top, threshold);
    }
  }

  /** There is one comparison of an attribute, whatever order its groups come in. */
  lemma ComparisonUnique(groups: seq<GroupCount>, minimum: nat, a: Option<map<string, real>>,
                         b: Option<map<string, real>>)
    requires minimum > 0 && IsComparison(groups, minimum, a) && IsComparison(groups, minimum, b)
    ensures a == b
  {
    var rates := RatesOf(groups, minimum);
    if a.Some? && b.Some? {
      var t :| t > 0.0 && IsMax(rates, t) && a.value == Ratios(rates, t);
      var u :| u > 0.0 && IsMax(rates, u) && b.value == Ratios(rates, u);
      assert t == u;
    }
  }

  method CompareRates(rates: map<string, real>) returns (ratios: Option<map<string, real>>)
    requires rates != map[] && forall v :: v in rates ==> rates[v] >= 0.0
    ensures ratios.None? ==> IsMax(rates, 0.0)
    ensures ratios.Some? ==> OverTheHighest(rates, ratios.value)
  {
    var referenceRate := MaxRate(rates);
    if referenceRate == 0.0 {
      return None;
    }
    return Some(Ratios(rates, referenceRate));
  }

  /** The ratios of one attribute, each value against the highest rate. */
  method Compare(groups: seq<GroupCount>, minimum: nat) returns (ratios: Option<map<string, real>>)
    requires minimum >= 2
    ensures IsComparison(groups, minimum, ratios)
  {
    var eligible := Eligible(groups, minimum);
    if |eligible| < 2 {
      return None;
    }
    var rates := Rates(eligible);
    assert eligible[0].attributeValue in rates;
    ratios := CompareRates(rates);
  }

  datatype Detail = Detail(attributeName: string, attributeValue: string, ratio: real)

  /** The rationale, before it is put into words. */
  datatype Rationale = Below(details: seq<Detail>) | AllAtOrAbove | InsufficientData(attributes: seq<string>)

  datatype Evaluation = Evaluation(
    outcome: Outcome,
    metricValues: map<string, real>,
    thresholdUsed: real,
    minimumGroupSizeUsed: nat,
    rationale: Rationale,
    notices: seq<Notice>)

  function MetricKey(name: string, value: string): string {
    name + ":" + value
  }

  /** `ratio` is what the policy computes for this value of this attribute. */
  ghost predicate IsRatio(groups: seq<GroupCount>, minimum: nat, name: string, value: string, ratio: real)
    requires minimum > 0
  {
    exists rs :: IsComparison(OfAttribute(groups, name), minimum, Some(rs)) && value in rs && rs[value] == ratio
  }

  predicate Ascending(s: seq<string>) {
    forall i, j :: 0 <= i < j < |s| ==> StrLess(s[i], s[j])
  }

  /** `sorted` over the keys of a dictionary. */
  method SortedKeys(keys: set<string>) returns (s: seq<string>)
    ensures Ascending(s) && forall x :: x in s <==> x in keys
  {
    var scanned := Paging.Scan(keys);
    s := Sort(StrLess, scanned);
    assert multiset(s) == multiset(keys);
    StrLessLaws();
    assert NoTies(StrLess, scanned) by {
      forall x, y | x in scanned && y in scanned && x != y ensures StrLess(x, y) || StrLess(y, x) {
        StrLessTotal(x, y);
      }
    }
    SortSorted(StrLess, scanned);
    forall x ensures x in s <==> x in keys {
      assert x in s <==> x in multiset(s);
    }
    forall i, j | 0 <= i < j < |s| ensures StrLess(s[i], s[j]) {
      if s[i] == s[j] {
        DuplicateCounted(s, i, j);
      }
      StrLessTotal(s[i], s[j]);
    }
  }

  predicate DetailLess(a: Detail, b: Detail) {
    || StrLess(a.attributeName, b.attributeName)
    || (a.attributeName == b.attributeName && StrLess(a.attributeValue, b.attributeValue))
  }

  predicate Ordered(details: seq<Detail>) {
    forall i, j :: 0 <= i < j < |details| ==> DetailLess(details[i], details[j])
  }

  lemma MetricKeyInjective(name: string, v: string, w: string)
    requires MetricKey(name, v) == MetricKey(name, w)
    ensures v == w
  {
    assert MetricKey(name, v)[|name| + 1..] == v && MetricKey(name, w)[|name| + 1..] == w;
  }

  predicate IsKeyOf(name: string, ratios: map<string, real>, values: set<string>, key: string) {
    exists v :: v in values && v in ratios && key == MetricKey(name, v)
  }

  /** `after` is `before` with the ratios of `values` entered under their keys. */
  ghost predicate Recorded(name: string, ratios: map<string, real>, values: set<string>, before: map<string, real>,
                           after: map<string, real>)
  {
    && (forall v :: v in values && v in ratios ==>
          MetricKey(name, v) in after && after[MetricKey(name, v)] == ratios[v])
    && (forall k :: !IsKeyOf(name, ratios, values, k) ==> (k in after <==> k in before))
    && (forall k :: !IsKeyOf(name, ratios, values, k) && k in before ==> after[k] == before[k])
  }

  lemma RecordOne(name: string, ratios: map<string, real>, values: set<string>, value: string,
                  before: map<string, real>, after: map<string, real>)
    requires Recorded(name, ratios, values, before, after) && value in ratios
    ensures Recorded(name, ratios, values + {value}, before, after[MetricKey(name, value) := ratios[value]])
  {
    forall v | v in values && MetricKey(name, v) == MetricKey(name, value) ensures v == value {
      MetricKeyInjective(name, v, value);
    }
    assert value in values + {value} && forall v :: v in values ==> v in values + {value};
    assert forall k :: IsKeyOf(name, ratios, values, k) ==> IsKeyOf(name, ratios, values + {value}, k);
  }

  predicate IsDetailOf(name: string, ratios: map<string, real>, threshold: real, values: set<string>, d: Detail) {
    && d.attributeName == name && d.attributeValue in values && d.attributeValue in ratios
    && d.ratio == ratios[d.attributeValue] && d.ratio < threshold
  }

  lemma AddDetail(name: string, ratios: map<string, real>, threshold: real, done: set<string>, value: string,
                  details: seq<Detail>)
    requires Ordered(details) && value in ratios && ratios[value] < threshold
    requires forall d :: d in details <==> IsDetailOf(name, ratios, threshold, done, d)
    requires forall v :: v in done ==> StrLess(v, value)
    ensures Ordered(details + [Detail(name, value, ratios[value])])
    ensures forall d :: d in details + [Detail(name, value, ratios[value])] <==>
              IsDetailOf(name, ratios, threshold, done + {value}, d)
  {
    forall i | 0 <= i < |details| ensures DetailLess(details[i], Detail(name, value, ratios[value])) {
      assert details[i] in details;
    }
  }

  /** The metrics and details after the values in `done`. */
  ghost predicate Entered(name: string, ratios: map<string, real>, threshold: real, done: set<string>,
                          before: map<string, real>, metrics: map<string, real>, details: seq<Detail>)
  {
    && Recorded(name, ratios, done, before, metrics)
    && Ordered(details) && forall d :: d in details <==> IsDetailOf(name, ratios, threshold, done, d)
  }

  /** One turn of the loop over an attribute's values. */
  method RecordValue(name: string, ratios: map<string, real>, threshold: real, ghost done: set<string>, value: string,
                     ghost before: map<string, real>, metrics: map<string, real>, details: seq<Detail>)
    returns (metrics': map<string, real>, details': seq<Detail>)
    requires Entered(name, ratios, threshold, done, before, metrics, details)
    requires value in ratios && forall v :: v in done ==> StrLess(v, value)
    ensures Entered(name, ratios, threshold, done + {value}, before, metrics', details')
  {
    RecordOne(name, ratios, done, value, before, metrics);
    metrics', details' := metrics[MetricKey(name, value) := ratios[value]], details;
    if ratios[value] < threshold {
      AddDetail(name, ratios, threshold, done, value, details);
      details' := details + [Detail(name, value, ratios[value])];
    }
  }

  function Elements(s: seq<string>): set<string> {
    set x | x in s
  }

  lemma FirstOnes(s: seq<string>, i: nat)
    requires Ascending(s) && i < |s|
    ensures Elements(s[..i + 1]) == Elements(s[..i]) + {s[i]}
    ensures forall v :: v in Elements(s[..i]) ==> StrLess(v, s[i])
  {
    assert s[..i + 1] == s[..i] + [s[i]];
  }

  /** One attribute's part of the loop: every ratio goes into the metrics, those below the
      threshold into the details, values ascending. */
  method Record(name: string, ratios: map<string, real>, threshold: real, metricsSoFar: map<string, real>)
    returns (metricValues: map<string, real>, details: seq<Detail>)
    ensures Entered(name, ratios, threshold, ratios.Keys, metricsSoFar, metricValues, details)
  {
    metricValues, details := metricsSoFar, [];
    var values := SortedKeys(ratios.Keys);
    for i := 0 to |values|
      invariant Entered(name, ratios, threshold, Elements(values[..i]), metricsSoFar, metricValues, details)
    {
      FirstOnes(values, i);
      assert values[i] in values;
      metricValues, details := RecordValue(name, ratios, threshold, Elements(values[..i]), values[i], metricsSoFar,
                                 metricValues, details);
    }
    assert values[..|values|] == values && Elements(values) == ratios.Keys;
  }

  /** The disparity test of one attribute, as the policy's rationale words it. */
  ghost predicate AttributeFlagged(groups: seq<GroupCount>, name: string, minimum: nat, threshold: real)
    requires minimum > 0
  {
    Disparity(RatesOf(OfAttribute(groups, name), minimum), threshold)
  }

  ghost predicate IsDetail(groups: seq<GroupCount>, minimum: nat, threshold: real, d: Detail)
    requires minimum > 0
  {
    IsRatio(groups, minimum, d.attributeName, d.attributeValue, d.ratio) && d.ratio < threshold
  }

  /** The details list exactly the ratios below the threshold of the attributes in `names`. */
  ghost predicate DetailsOf(groups: seq<GroupCount>, minimum: nat, threshold: real, names: seq<string>,
                            details: seq<Detail>)
    requires minimum > 0
  {
    && Ordered(details)
    && forall d :: d in details <==> d.attributeName in names && IsDetail(groups, minimum, threshold, d)
  }

  /** The attribute has a value whose ratio goes under this key. */
  ghost predicate Carries(groups: seq<GroupCount>, minimum: nat, name: string, key: string, ratio: real)
    requires minimum > 0
  {
    exists value :: key == MetricKey(name, value) && IsRatio(groups, minimum, name, value, ratio)
  }

  /** And it is the last attribute, in ascending order, to have one. */
  ghost predicate LastCarrier(groups: seq<GroupCount>, minimum: nat, names: seq<string>, name: string, key: string,
                              ratio: real)
    requires minimum > 0
  {
    && name in names && Carries(groups, minimum, name, key, ratio)
    && forall other, r :: other in names && Carries(groups, minimum, other, key, r) ==>
         other == name || StrLess(other, name)
  }

  /** The key is among the metrics exactly when some attribute has a ratio for it, and holds
      the ratio of the last one that has. */
  ghost predicate MetricAt(groups: seq<GroupCount>, minimum: nat, names: seq<string>, metrics: map<string, real>,
                           key: string)
    requires minimum > 0
  {
    && (forall name, ratio :: name in names && Carries(groups, minimum, name, key, ratio) ==> key in metrics)
    && (forall name, ratio :: LastCarrier(groups, minimum, names, name, key, ratio) ==>
          key in metrics && metrics[key] == ratio)
    && (key in metrics ==> exists name :: LastCarrier(groups, minimum, names, name, key, metrics[key]))
  }

  ghost predicate MetricsOf(groups: seq<GroupCount>, minimum: nat, names: seq<string>, metrics: map<string, real>)
    requires minimum > 0
  {
    forall key :: MetricAt(groups, minimum, names, metrics, key)
  }

  ghost predicate Insufficient(groups: seq<GroupCount>, minimum: nat, name: string)
    requires minimum > 0
  {
    IsComparison(OfAttribute(groups, name), minimum, None)
  }

  ghost predicate InsufficientOf(groups: seq<GroupCount>, minimum: nat, names: seq<string>, insufficient: seq<string>)
    requires minimum > 0
  {
    && Ascending(insufficient)
    && forall name :: name in insufficient <==> name in names && Insufficient(groups, minimum, name)
  }

  lemma DetailsGrow(groups: seq<GroupCount>, minimum: nat, threshold: real, names: seq<string>, name: string,
                    ratios: map<string, real>, before: seq<Detail>, added: seq<Detail>)
    requires minimum > 0 && DetailsOf(groups, minimum, threshold, names, before)
    requires Ascending(names + [name]) && Ordered(added)
    requires IsComparison(OfAttribute(groups, name), minimum, Some(ratios))
    requires forall d :: d in added <==> IsDetailOf(name, ratios, threshold, ratios.Keys, d)
    ensures DetailsOf(groups, minimum, threshold, names + [name], before + added)
  {
    forall d | d in before ensures StrLess(d.attributeName, name) {
      var i :| 0 <= i < |names| && names[i] == d.attributeName;
      assert (names + [name])[i] == names[i] && (names + [name])[|names|] == name;
    }
    forall d: Detail ensures d in added <==> d.attributeName == name && IsDetail(groups, minimum, threshold, d) {
      if d.attributeName == name && IsDetail(groups, minimum, threshold, d) {
        RatioListed(groups, minimum, name, ratios, d.attributeValue, d.ratio);
      }
    }
  }

  lemma InsufficientHasNoRatio(groups: seq<GroupCount>, minimum: nat, name: string)
    requires minimum > 0 && Insufficient(groups, minimum, name)
    ensures forall value, ratio :: !IsRatio(groups, minimum, name, value, ratio)
  {
  }

  lemma DetailsSkip(groups: seq<GroupCount>, minimum: nat, threshold: real, names: seq<string>, name: string,
                    details: seq<Detail>)
    requires minimum > 0 && DetailsOf(groups, minimum, threshold, names, details)
    requires Insufficient(groups, minimum, name)
    ensures DetailsOf(groups, minimum, threshold, names + [name], details)
  {
    InsufficientHasNoRatio(groups, minimum, name);
  }

  /** What the newest attribute carries is what has just been entered for it. */
  lemma CarriesEntered(groups: seq<GroupCount>, minimum: nat, name: string, ratios: map<string, real>, key: string)
    requires minimum > 0 && IsComparison(OfAttribute(groups, name), minimum, Some(ratios))
    ensures forall ratio :: Carries(groups, minimum, name, key, ratio) ==>
              exists v :: v in ratios && key == MetricKey(name, v) && ratio == ratios[v]
    ensures forall v :: v in ratios ==> Carries(groups, minimum, name, MetricKey(name, v), ratios[v])
  {
    forall ratio | Carries(groups, minimum, name, key, ratio)
      ensures exists v :: v in ratios && key == MetricKey(name, v) && ratio == ratios[v]
    {
      var value :| key == MetricKey(name, value) && IsRatio(groups, minimum, name, value, ratio);
      RatioListed(groups, minimum, name, ratios, value, ratio);
    }
    forall v | v in ratios ensures Carries(groups, minimum, name, MetricKey(name, v), ratios[v]) {
      assert IsRatio(groups, minimum, name, v, ratios[v]);
    }
  }

  /** A key the newest attribute does not carry keeps its last carrier, and one it carries has
      it for its last. */
  lemma LastCarrierGrows(groups: seq<GroupCount>, minimum: nat, names: seq<string>, name: string, key: string)
    requires minimum > 0 && forall n :: n in names ==> StrLess(n, name)
    ensures (forall r :: !Carries(groups, minimum, name, key, r)) ==>
              forall n, ratio :: LastCarrier(groups, minimum, names + [name], n, key, ratio) <==>
                                 LastCarrier(groups, minimum, names, n, key, ratio)
    ensures forall r :: Carries(groups, minimum, name, key, r) ==>
              LastCarrier(groups, minimum, names + [name], name, key, r)
    ensures (exists r :: Carries(groups, minimum, name, key, r)) ==>
              forall n, ratio :: LastCarrier(groups, minimum, names + [name], n, key, ratio) ==> n == name
  {
    var names' := names + [name];
    assert name in names' && forall n :: n in names ==> n in names';
    if r :| Carries(groups, minimum, name, key, r) {
      forall n, ratio | LastCarrier(groups, minimum, names', n, key, ratio) ensures n == name {
        if n != name {
          assert n in names && StrLess(n, name);
          StrLessAsymmetric(n, name);
        }
      }
    }
  }

  lemma KeyGrows(groups: seq<GroupCount>, minimum: nat, names: seq<string>, name: string, ratios: map<string, real>,
                 before: map<string, real>, after: map<string, real>, key: string)
    requires minimum > 0 && MetricAt(groups, minimum, names, before, key) && forall n :: n in names ==> StrLess(n, name)
    requires IsComparison(OfAttribute(groups, name), minimum, Some(ratios))
    requires Recorded(name, ratios, ratios.Keys, before, after)
    ensures MetricAt(groups, minimum, names + [name], after, key)
  {
    CarriesEntered(groups, minimum, name, ratios, key);
    LastCarrierGrows(groups, minimum, names, name, key);
    if IsKeyOf(name, ratios, ratios.Keys, key) {
      var v :| v in ratios && key == MetricKey(name, v);
      assert Carries(groups, minimum, name, key, ratios[v]);
      forall r | Carries(groups, minimum, name, key, r) ensures r == ratios[v] {
        var u :| u in ratios && key == MetricKey(name, u) && r == ratios[u];
        MetricKeyInjective(name, u, v);
      }
    } else {
      assert forall r :: !Carries(groups, minimum, name, key, r);
    }
  }

  lemma MetricsGrow(groups: seq<GroupCount>, minimum: nat, names: seq<string>, name: string, ratios: map<string, real>,
                    before: map<string, real>, after: map<string, real>)
    requires minimum > 0 && MetricsOf(groups, minimum, names, before) && forall n :: n in names ==> StrLess(n, name)
    requires IsComparison(OfAttribute(groups, name), minimum, Some(ratios))
    requires Recorded(name, ratios, ratios.Keys, before, after)
    ensures MetricsOf(groups, minimum, names + [name], after)
  {
    forall key ensures MetricAt(groups, minimum, names + [name], after, key) {
      KeyGrows(groups, minimum, names, name, ratios, before, after, key);
    }
  }

  lemma RatioListed(groups: seq<GroupCount>, minimum: nat, name: string, ratios: map<string, real>, value: string,
                    ratio: real)
    requires minimum > 0 && IsComparison(OfAttribute(groups, name), minimum, Some(ratios))
    requires IsRatio(groups, minimum, name, value, ratio)
    ensures value in ratios && ratios[value] == ratio
  {
    var rs :| IsComparison(OfAttribute(groups, name), minimum, Some(rs)) && value in rs && rs[value] == ratio;
    ComparisonUnique(OfAttribute(groups, name), minimum, Some(rs), Some(ratios));
  }

  lemma MetricsSkip(groups: seq<GroupCount>, minimum: nat, names: seq<string>, name: string, metrics: map<string, real>)
    requires minimum > 0 && MetricsOf(groups, minimum, names, metrics) && Insufficient(groups, minimum, name)
    requires forall n :: n in names ==> StrLess(n, name)
    ensures MetricsOf(groups, minimum, names + [name], metrics)
  {
    InsufficientHasNoRatio(groups, minimum, name);
    forall key ensures MetricAt(groups, minimum, names + [name], metrics, key) {
      assert MetricAt(groups, minimum, names, metrics, key);
      assert forall r :: !Carries(groups, minimum, name, key, r);
      LastCarrierGrows(groups, minimum, names, name, key);
    }
  }

  lemma InsufficientGrow(groups: seq<GroupCount>, minimum: nat, names: seq<string>, name: string,
                         insufficient: seq<string>)
    requires minimum > 0 && InsufficientOf(groups, minimum, names, insufficient)
    requires Ascending(names + [name])
    ensures Insufficient(groups, minimum, name) ==>
              InsufficientOf(groups, minimum, names + [name], insufficient + [name])
    ensures !Insufficient(groups, minimum, name) ==> InsufficientOf(groups, minimum, names + [name], insufficient)
  {
    forall n | n in insufficient ensures StrLess(n, name) {
      var i :| 0 <= i < |names| && names[i] == n;
      assert (names + [name])[i] == n && (names + [name])[|names|] == name;
    }
  }

  lemma NoGroupsInsufficient(groups: seq<GroupCount>, minimum: nat, name: string)
    requires minimum > 0 && OfAttribute(groups, name) == []
    ensures Insufficient(groups, minimum, name)
  {
  }

  /** Every attribute that was compared has its comparison. */
  lemma Compared(groups: seq<GroupCount>, minimum: nat) returns (ratios: Option<map<string, real>>)
    requires minimum > 0
    ensures IsComparison(groups, minimum, ratios)
  {
    var rates := RatesOf(groups, minimum);
    if |Eligible(groups, minimum)| < 2 {
      return None;
    }
    assert Eligible(groups, minimum)[0].attributeValue in rates;
    var top := HighestOf(rates, rates.Keys);
    ratios := if top == 0.0 then None else Some(Ratios(rates, top));
  }

  lemma {:induction false} HighestOf(rates: map<string, real>, keys: set<string>) returns (top: real)
    requires keys != {} && keys <= rates.Keys
    ensures exists v :: v in keys && rates[v] == top
    ensures forall v :: v in keys ==> rates[v] <= top
  {
    var k :| k in keys;
    if keys == {k} {
      return rates[k];
    }
    top := HighestOf(rates, keys - {k});
    if rates[k] > top {
      return rates[k];
    }
  }

  /** Something is listed exactly when some attribute shows a disparity. */
  lemma DetailsDecide(groups: seq<GroupCount>, minimum: nat, threshold: real, names: seq<string>, details: seq<Detail>)
    requires minimum > 0 && 0.0 < threshold <= 1.0 && DetailsOf(groups, minimum, threshold, names, details)
    requires forall name :: name in names <==> OfAttribute(groups, name) != []
    ensures details != [] <==> exists name :: AttributeFlagged(groups, name, minimum, threshold)
  {
    if details != [] {
      var d := details[0];
      assert IsDetail(groups, minimum, threshold, d);
      var rs :| IsComparison(OfAttribute(groups, d.attributeName), minimum, Some(rs)) && d.attributeValue in rs
                  && rs[d.attributeValue] == d.ratio;
      ComparisonDecides(OfAttribute(groups, d.attributeName), minimum, Some(rs), threshold);
      assert AttributeFlagged(groups, d.attributeName, minimum, threshold);
    }
    if name :| AttributeFlagged(groups, name, minimum, threshold) {
      var ratios := Compared(OfAttribute(groups, name), minimum);
      ComparisonDecides(OfAttribute(groups, name), minimum, ratios, threshold);
      var v :| v in ratios.value && ratios.value[v] < threshold;
      var d := Detail(name, v, ratios.value[v]);
      assert IsRatio(groups, minimum, name, v, ratios.value[v]);
      assert IsDetail(groups, minimum, threshold, d);
      if OfAttribute(groups, name) == [] {
        NoGroupsInsufficient(groups, minimum, name);
        ComparisonUnique(OfAttribute(groups, name), minimum, ratios, None);
      }
      assert d in details;
    }
  }

  ghost predicate AnyComputed(groups: seq<GroupCount>, minimum: nat, names: seq<string>)
    requires minimum > 0
  {
    exists n :: n in names && !Insufficient(groups, minimum, n)
  }

  lemma AnyComputedGrows(groups: seq<GroupCount>, minimum: nat, names: seq<string>, i: nat)
    requires minimum > 0 && i < |names|
    ensures AnyComputed(groups, minimum, names[..i + 1]) <==>
              AnyComputed(groups, minimum, names[..i]) || !Insufficient(groups, minimum, names[i])
  {
    assert names[..i + 1] == names[..i] + [names[i]];
  }

  /** The rationale names every ratio below the threshold; without one, and when nothing
      could be compared, every attribute there was. */
  ghost predicate RationaleOf(groups: seq<GroupCount>, minimum: nat, threshold: real, names: seq<string>,
                              rationale: Rationale)
    requires minimum > 0
  {
    match rationale
    case Below(details) => DetailsOf(groups, minimum, threshold, names, details)
    case AllAtOrAbove => AnyComputed(groups, minimum, names)
    case InsufficientData(attributes) =>
      && !AnyComputed(groups, minimum, names)
      && InsufficientOf(groups, minimum, names, attributes)
  }

  datatype Progress = Progress(metrics: map<string, real>, details: seq<Detail>, insufficient: seq<string>,
                               anyComputed: bool)

  /** What the loop has found after the first `i` attributes. */
  ghost predicate SoFar(groups: seq<GroupCount>, minimum: nat, threshold: real, sorted: seq<string>, i: nat,
                        p: Progress)
    requires minimum > 0 && i <= |sorted|
  {
    && DetailsOf(groups, minimum, threshold, sorted[..i], p.details)
    && MetricsOf(groups, minimum, sorted[..i], p.metrics)
    && InsufficientOf(groups, minimum, sorted[..i], p.insufficient)
    && (p.anyComputed <==> AnyComputed(groups, minimum, sorted[..i]))
  }

  lemma NothingYet(groups: seq<GroupCount>, minimum: nat, threshold: real, sorted: seq<string>)
    requires minimum > 0
    ensures SoFar(groups, minimum, threshold, sorted, 0, Progress(map[], [], [], false))
  {
  }

  /** One turn of the loop, on the i-th attribute. */
  method EvaluateAttribute(groups: seq<GroupCount>, minimum: nat, threshold: real, sorted: seq<string>, i: nat,
                           own: seq<GroupCount>, p: Progress)
    returns (p': Progress)
    requires minimum >= 2 && Ascending(sorted) && i < |sorted| && own == OfAttribute(groups, sorted[i])
    requires SoFar(groups, minimum, threshold, sorted, i, p)
    ensures SoFar(groups, minimum, threshold, sorted, i + 1, p')
  {
    var name := sorted[i];
    ghost var names := sorted[..i];
    assert sorted[..i + 1] == names + [name];
    assert Ascending(names + [name]);
    FirstOnes(sorted, i);
    assert forall n :: n in names ==> n in Elements(names);
    AnyComputedGrows(groups, minimum, sorted, i);
    InsufficientGrow(groups, minimum, names, name, p.insufficient);
    var ratios := Compare(own, minimum);
    if ratios == None {
      DetailsSkip(groups, minimum, threshold, names, name, p.details);
      MetricsSkip(groups, minimum, names, name, p.metrics);
      return p.(insufficient := p.insufficient + [name]);
    }
    if Insufficient(groups, minimum, name) {
      ComparisonUnique(own, minimum, ratios, None);
    }
    var metrics, added := Record(name, ratios.value, threshold, p.metrics);
    DetailsGrow(groups, minimum, threshold, names, name, ratios.value, p.details, added);
    MetricsGrow(groups, minimum, names, name, ratios.value, p.metrics, metrics);
    return Progress(metrics, p.details + added, p.insufficient, true);
  }

  /** The loop over the attributes, in ascending order. */
  method EvaluateAttributes(groups: seq<GroupCount>, byAttribute: map<string, seq<GroupCount>>, sorted: seq<string>,
                            minimum: nat, threshold: real)
    returns (p: Progress)
    requires minimum >= 2 && Ascending(sorted)
    requires forall name :: name in sorted ==> name in byAttribute && byAttribute[name] == OfAttribute(groups, name)
    ensures SoFar(groups, minimum, threshold, sorted, |sorted|, p)
  {
    p := Progress(map[], [], [], false);
    NothingYet(groups, minimum, threshold, sorted);
    for i := 0 to |sorted|
      invariant SoFar(groups, minimum, threshold, sorted, i, p)
    {
      assert sorted[i] in sorted;
      p := EvaluateAttribute(groups, minimum, threshold, sorted, i, byAttribute[sorted[i]], p);
    }
  }

  /** `AdverseImpactRatioPolicy.evaluate`. It flags exactly when some attribute shows a
      disparity; the metrics hold every ratio and the rationale lists every one below. */
  method Evaluate(groups: seq<GroupCount>, parameters: map<string, Float>)
    returns (e: Evaluation, ghost names: seq<string>)
    ensures e.thresholdUsed == EffectiveThreshold(parameters)
              && e.minimumGroupSizeUsed == EffectiveGroupSize(parameters)
    ensures e.outcome == FLAG <==>
              exists name :: AttributeFlagged(groups, name, e.minimumGroupSizeUsed, e.thresholdUsed)
    ensures e.outcome == FLAG <==> e.rationale.Below?
    ensures IsThreshold(parameters, e.thresholdUsed) && IsGroupSize(parameters, e.minimumGroupSizeUsed)
    ensures ThresholdIgnored in e.notices <==> "threshold" in parameters && !UsableThreshold(parameters["threshold"])
    ensures GroupSizeIgnored in e.notices <==>
              "minimum_group_size" in parameters && !UsableGroupSize(parameters["minimum_group_size"])
    ensures forall name :: name in names <==> OfAttribute(groups, name) != []
    ensures MetricsOf(groups, e.minimumGroupSizeUsed, names, e.metricValues)
    ensures RationaleOf(groups, e.minimumGroupSizeUsed, e.thresholdUsed, names, e.rationale)
  {
    var threshold, minimum, notices := ResolveParameters(parameters);
    assert IsThreshold(parameters, threshold) && IsGroupSize(parameters, minimum);
    var byAttribute := GroupByAttribute(groups);
    var sorted := SortedKeys(byAttribute.Keys);
    var p := EvaluateAttributes(groups, byAttribute, sorted, minimum, threshold);
    assert sorted[..|sorted|] == sorted;
    names := sorted;
    DetailsDecide(groups, minimum, threshold, names, p.details);
    if p.details != [] {
      e := Evaluation(FLAG, p.metrics, threshold, minimum, Below(p.details), notices);
    } else if p.anyComputed {
      e := Evaluation(CLEAR, p.metrics, threshold, minimum, AllAtOrAbove, notices);
    } else {
      e := Evaluation(CLEAR, p.metrics, threshold, minimum, InsufficientData(p.insufficient), notices);
    }
  }

  // ----- From the raw events -----

  /** The share of one group's decisions that were approvals, straight from the events. */
  function ApprovalRate(s: Scope, es: seq<DecisionEvent>, name: string, value: string): (r: real)
    requires Total(s, es, name, value) > 0
    ensures r * Total(s, es, name, value) as real == Approved(s, es, name, value) as real
  {
    Approved(s, es, name, value) as real / Total(s, es, name, value) as real
  }

  /** Two values of the attribute, each decided on often enough, one approved at a rate
      below the threshold times the other's. */
  ghost predicate Shortfall(s: Scope, es: seq<DecisionEvent>, name: string, minimum: nat, threshold: real)
    requires minimum > 0
  {
    exists v, w ::
      && Total(s, es, name, v) >= minimum && Total(s, es, name, w) >= minimum
      && FallsShort(ApprovalRate(s, es, name, v), threshold, ApprovalRate(s, es, name, w))
  }

  lemma {:induction false} RatesExact(groups: seq<GroupCount>, g: GroupCount)
    requires forall h :: h in groups ==> h.totalCount > 0
    requires forall h, k :: h in groups && k in groups && h.attributeValue == k.attributeValue ==> h == k
    requires g in groups
    ensures Rates(groups)[g.attributeValue] == Rate(g)
  {
    var n := |groups| - 1;
    assert groups == groups[..n] + [groups[n]];
    if groups[n].attributeValue != g.attributeValue {
      RatesExact(groups[..n], g);
    }
  }

  /** `rates` are the approval rates of the values decided on often enough. */
  ghost predicate EventRates(s: Scope, es: seq<DecisionEvent>, name: string, minimum: nat, rates: map<string, real>)
    requires minimum > 0
  {
    && (forall v :: v in rates <==> Total(s, es, name, v) >= minimum)
    && (forall v :: v in rates ==> rates[v] == ApprovalRate(s, es, name, v))
  }

  lemma RatesFromEvents(s: Scope, es: seq<DecisionEvent>, name: string, rows: seq<GroupCount>, minimum: nat)
    requires minimum > 0 && IsGroupBy(s, es, name, rows)
    ensures EventRates(s, es, name, minimum, RatesOf(rows, minimum))
  {
    var eligible := Eligible(rows, minimum);
    forall v ensures v in Rates(eligible) <==> Total(s, es, name, v) >= minimum {
      if Total(s, es, name, v) >= minimum {
        var g :| g in rows && g.attributeValue == v;
        assert g in eligible;
      }
    }
    forall v | v in Rates(eligible) ensures Rates(eligible)[v] == ApprovalRate(s, es, name, v) {
      var g :| g in eligible && g.attributeValue == v;
      RatesExact(eligible, g);
    }
  }

  lemma ShortfallIsDisparity(s: Scope, es: seq<DecisionEvent>, name: string, minimum: nat, rates: map<string, real>,
                             threshold: real)
    requires minimum > 0 && EventRates(s, es, name, minimum, rates)
    ensures Disparity(rates, threshold) <==> Shortfall(s, es, name, minimum, threshold)
  {
    if Disparity(rates, threshold) {
      var v, w :| v in rates && w in rates && FallsShort(rates[v], threshold, rates[w]);
      assert Total(s, es, name, v) >= minimum && Total(s, es, name, w) >= minimum;
    }
    if Shortfall(s, es, name, minimum, threshold) {
      var v, w :| Total(s, es, name, v) >= minimum && Total(s, es, name, w) >= minimum
        && FallsShort(ApprovalRate(s, es, name, v), threshold, ApprovalRate(s, es, name, w));
      assert v in rates && w in rates;
    }
  }

  /** The four-fifths test decides what it is meant to decide, on the raw events. */
  lemma FlaggedFromEvents(s: Scope, es: seq<DecisionEvent>, direct: seq<string>, groups: seq<GroupCount>,
                          name: string, minimum: nat, threshold: real)
    requires minimum > 0 && ExactCounts(s, es, direct, groups)
    ensures AttributeFlagged(groups, name, minimum, threshold) <==>
              name in direct && Shortfall(s, es, name, minimum, threshold)
  {
    var rates := RatesOf(OfAttribute(groups, name), minimum);
    if name in direct {
      RatesFromEvents(s, es, name, OfAttribute(groups, name), minimum);
      ShortfallIsDisparity(s, es, name, minimum, rates, threshold);
    } else {
      assert rates == map[];
    }
  }

  /** From the raw events to the outcome: the window's counts, then the policy. Whatever
      order the database lists the groups in, the outcome is the same. */
  method EvaluateWindow(s: Scope, es: seq<DecisionEvent>, direct: seq<string>, query: string -> seq<GroupCount>,
                        parameters: map<string, Float>)
    returns (e: Evaluation)
    requires Answers(s, es, direct, query)
    ensures IsThreshold(parameters, e.thresholdUsed) && IsGroupSize(parameters, e.minimumGroupSizeUsed)
    ensures e.minimumGroupSizeUsed > 0
    ensures e.outcome == FLAG <==>
              exists name :: name in direct && Shortfall(s, es, name, e.minimumGroupSizeUsed, e.thresholdUsed)
  {
    var groups := BuildGroupCounts(direct, query);
    ghost var names;
    e, names := Evaluate(groups, parameters);
    forall name
      ensures AttributeFlagged(groups, name, e.minimumGroupSizeUsed, e.thresholdUsed) <==>
              name in direct && Shortfall(s, es, name, e.minimumGroupSizeUsed, e.thresholdUsed)
    {
      FlaggedFromEvents(s, es, direct, groups, name, e.minimumGroupSizeUsed, e.thresholdUsed);
    }
  }

  /** `w` has the highest approval rate among the values decided on often enough. */
  ghost predicate IsHighest(s: Scope, es: seq<DecisionEvent>, name: string, w: string, minimum: nat)
    requires minimum > 0
  {
    Total(s, es, name, w) >= minimum
    && forall u :: Total(s, es, name, u) >= minimum ==> ApprovalRate(s, es, name, u) <= ApprovalRate(s, es, name, w)
  }

  lemma HighestRate(s: Scope, es: seq<DecisionEvent>, name: string, minimum: nat, rates: map<string, real>, top: real,
                    w: string)
    requires minimum > 0 && EventRates(s, es, name, minimum, rates)
    requires IsMax(rates, top) && w in rates && rates[w] == top
    ensures IsHighest(s, es, name, w, minimum) && ApprovalRate(s, es, name, w) == top
  {
    forall u | Total(s, es, name, u) >= minimum
      ensures ApprovalRate(s, es, name, u) <= ApprovalRate(s, es, name, w)
    {
      assert u in rates && rates[u] <= top;
    }
  }

  predicate IsQuotient(q: real, rate: real, top: real) {
    top > 0.0 && q == rate / top
  }

  /** The ratio reported for a value is its approval rate over the highest approval rate among the
      values decided on often enough, of which it is one. */
  lemma RatioFromEvents(s: Scope, es: seq<DecisionEvent>, direct: seq<string>, groups: seq<GroupCount>,
                        name: string, value: string, minimum: nat, ratio: real)
    requires minimum > 0 && ExactCounts(s, es, direct, groups) && name in direct
    requires IsRatio(groups, minimum, name, value, ratio)
    ensures Total(s, es, name, value) >= minimum
    ensures exists w ::
              && IsHighest(s, es, name, w, minimum)
              && IsQuotient(ratio, ApprovalRate(s, es, name, value), ApprovalRate(s, es, name, w))
  {
    var rates := RatesOf(OfAttribute(groups, name), minimum);
    RatesFromEvents(s, es, name, OfAttribute(groups, name), minimum);
    var top, w := TopOf(OfAttribute(groups, name), minimum, value, ratio);
    HighestRate(s, es, name, minimum, rates, top, w);
    assert rates[value] == ApprovalRate(s, es, name, value);
  }

  lemma TopOf(groups: seq<GroupCount>, minimum: nat, value: string, ratio: real) returns (top: real, w: string)
    requires minimum > 0
    requires exists rs :: IsComparison(groups, minimum, Some(rs)) && value in rs && rs[value] == ratio
    ensures var rates := RatesOf(groups, minimum);
            && IsMax(rates, top) && w in rates && rates[w] == top
            && value in rates && IsQuotient(ratio, rates[value], top)
  {
    var rates := RatesOf(groups, minimum);
    var rs :| IsComparison(groups, minimum, Some(rs)) && value in rs && rs[value] == ratio;
    top :| top > 0.0 && IsMax(rates, top) && rs == Ratios(rates, top);
    w :| w in rates && rates[w] == top;
  }

  // ----- An override at work -----

  /** Two groups of 30 decisions, the second all approved. */
  function Pair(name: string, value: string, approved: nat, other: string): seq<GroupCount> {
    [GroupCount(name, value, 30, approved), GroupCount(name, other, 30, 30)]
  }

  lemma PairEligible(name: string, value: string, approved: nat, other: string)
    ensures Eligible(Pair(name, value, approved, other), 30) == Pair(name, value, approved, other)
  {
    var rows := Pair(name, value, approved, other);
    assert rows[..1] == [rows[0]] && [rows[0]][..0] == [] && Eligible([], 30) == [];
    assert Eligible([rows[0]], 30) == [] + [rows[0]] && Eligible(rows, 30) == [rows[0]] + [rows[1]] == rows;
  }

  lemma PairRates(name: string, value: string, approved: nat, other: string)
    requires value != other && approved <= 30
    ensures Rates(Pair(name, value, approved, other)) == map[value := approved as real / 30.0, other := 1.0]
  {
    var rows := Pair(name, value, approved, other);
    assert rows[..1] == [rows[0]] && [rows[0]][..0] == [];
    assert Rates([rows[0]]) == map[value := Rate(rows[0])];
    assert Rates(rows) == Rates([rows[0]])[other := Rate(rows[1])];
  }

  lemma PairDisparity(threshold: real)
    requires 0.0 < threshold <= 1.0
    ensures AttributeFlagged(Pair("a", "x", 26, "y"), "a", 30, threshold) <==> 26 as real / 30.0 < threshold
  {
    var groups := Pair("a", "x", 26, "y");
    var rates := map["x" := 26 as real / 30.0, "y" := 1.0];
    assert "x"[0] != "y"[0];
    OfAttributeUniform(groups, "a", "a");
    PairEligible("a", "x", 26, "y");
    PairRates("a", "x", 26, "y");
    assert rates["y"] == 1.0 && IsMax(rates, 1.0);
    AgainstTheHighest(rates, 1.0, threshold);
    assert Ratios(rates, 1.0)["x"] == 26 as real / 30.0 && Ratios(rates, 1.0)["y"] == 1.0;
  }

  /** Two groups of 30, 26 approved of the one and all of the other: flagged under a threshold of
      nine tenths, and not without the override. */
  lemma OverrideDecides()
    ensures var (own, none) := (map["threshold" := Finite(0.9)], map[]);
            && AttributeFlagged(Pair("a", "x", 26, "y"), "a", EffectiveGroupSize(own), EffectiveThreshold(own))
            && !AttributeFlagged(Pair("a", "x", 26, "y"), "a", EffectiveGroupSize(none), EffectiveThreshold(none))
  {
    var own: map<string, Float> := map["threshold" := Finite(0.9)];
    OverridesExactly(own);
    OverridesExactly(map[]);
    assert own["threshold"] == Finite(0.9);
    PairDisparity(0.9);
    PairDisparity(0.8);
  }
}
