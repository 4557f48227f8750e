/** The windowed aggregate over raw decision events, one GROUP BY per DIRECT attribute. */
module PopulationWindow {
  import opened Wrappers
  import opened JsonText

  /** `approved` is the decision output's value under that key, when there is one. */
  datatype DecisionEvent = DecisionEvent(
    modelVersionId: string,
    occurredAt: int,
    protectedAttributeRefs: map<string, string>,
    approved: Option<Json>)

  datatype GroupCount = GroupCount(attributeName: string, attributeValue: string, totalCount: nat, favorableCount: nat)

  /** One system's events over one half-open stretch of time. */
  datatype Scope = Scope(versions: map<string, string>, systemId: string, windowStart: int, windowEnd: int)

  predicate InScope(s: Scope, e: DecisionEvent) {
    && e.modelVersionId in s.versions && s.versions[e.modelVersionId] == s.systemId
    && s.windowStart <= e.occurredAt < s.windowEnd
  }

  predicate InGroup(s: Scope, e: DecisionEvent, name: string, value: string) {
    InScope(s, e) && name in e.protectedAttributeRefs && e.protectedAttributeRefs[name] == value
  }

  /** `->> 'approved' = 'true'` compares text, so the JSON string passes as well as the
      JSON boolean. */
  predicate Favorable(e: DecisionEvent) {
    e.approved == Some(Bool(true)) || e.approved == Some(Str("true"))
  }

  function Total(s: Scope, es: seq<DecisionEvent>, name: string, value: string): nat {
    if es == [] then 0
    else Total(s, es[1..], name, value) + if InGroup(s, es[0], name, value) then 1 else 0
  }

  function Approved(s: Scope, es: seq<DecisionEvent>, name: string, value: string): (n: nat)
    ensures n <= Total(s, es, name, value)
  {
    if es == [] then 0
    else Approved(s, es[1..], name, value) + if InGroup(s, es[0], name, value) && Favorable(es[0]) then 1 else 0
  }

  /** Two sets that `f` and `g` carry into each other are of one size. */
  lemma {:induction false} SameSize<T, U>(a: set<T>, b: set<U>, f: T -> U, g: U -> T)
    requires forall x :: x in a ==> f(x) in b && g(f(x)) == x
    requires forall y :: y in b ==> g(y) in a && f(g(y)) == y
    ensures |a| == |b|
  {
    if a == {} {
      assert b == {};
    } else {
      var x :| x in a;
      SameSize(a - {x}, b - {f(x)}, f, g);
    }
  }

  /** One more event in front: its place, if it is one of those counted, and the places of the
      others one further on. */
  lemma OneMorePlace(rest: set<int>, all: set<int>, first: bool)
    requires forall i :: i in all ==> (i == 0 && first) || (i > 0 && i - 1 in rest)
    requires forall i :: i in rest ==> i >= 0 && i + 1 in all
    requires first ==> 0 in all
    ensures |all| == |rest| + if first then 1 else 0
  {
    var later := all - {0};
    SameSize(rest, later, (i: int) => i + 1, (i: int) => i - 1);
    assert first ==> |all| == |later| + 1;
    assert !first ==> later == all;
  }

  /** The total counts the events of the system's model versions in the half-open window that
      give the attribute this value. */
  lemma {:induction false} TotalCounts(s: Scope, es: seq<DecisionEvent>, name: string, value: string)
    ensures Total(s, es, name, value) ==
            |set i | 0 <= i < |es|
                && es[i].modelVersionId in s.versions && s.versions[es[i].modelVersionId] == s.systemId
                && s.windowStart <= es[i].occurredAt && es[i].occurredAt < s.windowEnd
                && name in es[i].protectedAttributeRefs && es[i].protectedAttributeRefs[name] == value|
  {
    var all := set i | 0 <= i < |es|
                && es[i].modelVersionId in s.versions && s.versions[es[i].modelVersionId] == s.systemId
                && s.windowStart <= es[i].occurredAt && es[i].occurredAt < s.windowEnd
                && name in es[i].protectedAttributeRefs && es[i].protectedAttributeRefs[name] == value;
    if es != [] {
      TotalCounts(s, es[1..], name, value);
      var rest := set i | 0 <= i < |es[1..]|
                && es[1..][i].modelVersionId in s.versions && s.versions[es[1..][i].modelVersionId] == s.systemId
                && s.windowStart <= es[1..][i].occurredAt && es[1..][i].occurredAt < s.windowEnd
                && name in es[1..][i].protectedAttributeRefs && es[1..][i].protectedAttributeRefs[name] == value;
      OneMorePlace(rest, all, 0 in all);
    }
  }

  /** And the approved ones are those of them whose decision says `approved`, as the JSON true or
      as the JSON string of that word; no other value counts. */
  lemma {:induction false} ApprovedCounts(s: Scope, es: seq<DecisionEvent>, name: string, value: string)
    ensures Approved(s, es, name, value) ==
            |set i | 0 <= i < |es|
                && es[i].modelVersionId in s.versions && s.versions[es[i].modelVersionId] == s.systemId
                && s.windowStart <= es[i].occurredAt && es[i].occurredAt < s.windowEnd
                && name in es[i].protectedAttributeRefs && es[i].protectedAttributeRefs[name] == value
                && (es[i].approved == Some(Bool(true)) || es[i].approved == Some(Str("true")))|
  {
    var all := set i | 0 <= i < |es|
                && es[i].modelVersionId in s.versions && s.versions[es[i].modelVersionId] == s.systemId
                && s.windowStart <= es[i].occurredAt && es[i].occurredAt < s.windowEnd
                && name in es[i].protectedAttributeRefs && es[i].protectedAttributeRefs[name] == value
                && (es[i].approved == Some(Bool(true)) || es[i].approved == Some(Str("true")));
    if es != [] {
      ApprovedCounts(s, es[1..], name, value);
      var rest := set i | 0 <= i < |es[1..]|
                && es[1..][i].modelVersionId in s.versions && s.versions[es[1..][i].modelVersionId] == s.systemId
                && s.windowStart <= es[1..][i].occurredAt && es[1..][i].occurredAt < s.windowEnd
                && name in es[1..][i].protectedAttributeRefs && es[1..][i].protectedAttributeRefs[name] == value
                && (es[1..][i].approved == Some(Bool(true)) || es[1..][i].approved == Some(Str("true")));
      OneMorePlace(rest, all, 0 in all);
    }
  }

  /** A result of `_GROUP_COUNTS_SQL` for one attribute: a row for each value that occurs,
      in whatever order the collation puts them. */
  ghost predicate IsGroupBy(s: Scope, es: seq<DecisionEvent>, name: string, rows: seq<GroupCount>) {
    && (forall i, j :: 0 <= i < j < |rows| ==> rows[i].attributeValue != rows[j].attributeValue)
    && (forall g :: g in rows ==>
          g == GroupCount(name, g.attributeValue, Total(s, es, name, g.attributeValue),
              Approved(s, es, name, g.attributeValue)))
    && (forall value :: Total(s, es, name, value) > 0 <==> exists g :: g in rows && g.attributeValue == value)
  }

  function Occurs(s: Scope, es: seq<DecisionEvent>, name: string): (values: set<string>)
    ensures forall v :: v in values <==> Total(s, es, name, v) > 0
  {
    if es == [] then {}
    else
      var e := es[0];
      Occurs(s, es[1..], name)
      + if InScope(s, e) && name in e.protectedAttributeRefs then {e.protectedAttributeRefs[name]} else {}
  }

  /** The aggregate, a row for each value that occurs: whatever the events, the query has an
      answer. */
  method GroupBy(s: Scope, es: seq<DecisionEvent>, name: string) returns (rows: seq<GroupCount>)
    ensures IsGroupBy(s, es, name, rows)
  {
    rows := [];
    var rest := Occurs(s, es, name);
    while rest != {}
      invariant forall v :: v in rest ==> Total(s, es, name, v) > 0
      invariant forall i, j :: 0 <= i < j < |rows| ==> rows[i].attributeValue != rows[j].attributeValue
      invariant forall g :: g in rows ==>
                  && g == GroupCount(name, g.attributeValue, Total(s, es, name, g.attributeValue),
                       Approved(s, es, name, g.attributeValue))
                  && g.attributeValue !in rest && g.totalCount > 0
      invariant forall v :: Total(s, es, name, v) > 0 <==> v in rest || exists g :: g in rows && g.attributeValue == v
      decreases rest
    {
      var v :| v in rest;
      var row := GroupCount(name, v, Total(s, es, name, v), Approved(s, es, name, v));
      forall i | 0 <= i < |rows| ensures rows[i].attributeValue != v {
        assert rows[i] in rows;
      }
      assert row in rows + [row];
      ghost var before := rows;
      rows, rest := rows + [row], rest - {v};
      forall u ensures Total(s, es, name, u) > 0 <==> u in rest || exists g :: g in rows && g.attributeValue == u {
        if g :| g in before && g.attributeValue == u {
          assert g in rows;
        }
      }
    }
  }

  function OfAttribute(groups: seq<GroupCount>, name: string): seq<GroupCount> {
    if groups == [] then []
    else
      var n := |groups| - 1;
      OfAttribute(groups[..n], name) + if groups[n].attributeName == name then [groups[n]] else []
  }

  lemma {:induction false} OfAttributeAppend(a: seq<GroupCount>, b: seq<GroupCount>, name: string)
    ensures OfAttribute(a + b, name) == OfAttribute(a, name) + OfAttribute(b, name)
  {
    if b == [] {
      assert a + b == a;
    } else {
      var n := |b| - 1;
      assert (a + b)[..|a| + n] == a + b[..n];
      OfAttributeAppend(a, b[..n], name);
    }
  }

  lemma {:induction false} OfAttributeUniform(rows: seq<GroupCount>, own: string, name: string)
    requires forall g :: g in rows ==> g.attributeName == own
    ensures OfAttribute(rows, name) == if name == own then rows else []
  {
    if rows != [] {
      var n := |rows| - 1;
      assert rows == rows[..n] + [rows[n]];
      OfAttributeUniform(rows[..n], own, name);
    }
  }

  /** Extending the groups with one attribute's rows touches no other attribute. */
  lemma OfAttributeExtend(groups: seq<GroupCount>, rows: seq<GroupCount>, own: string, name: string)
    requires (forall g :: g in rows ==> g.attributeName == own) && OfAttribute(groups, own) == []
    ensures OfAttribute(groups + rows, name) == if name == own then rows else OfAttribute(groups, name)
  {
    OfAttributeAppend(groups, rows, name);
    OfAttributeUniform(rows, own, name);
    assert [] + rows == rows && OfAttribute(groups, name) + [] == OfAttribute(groups, name);
  }

  lemma FirstNames(direct: seq<string>, i: nat, name: string)
    requires i < |direct|
    ensures name in direct[..i + 1] <==> name == direct[i] || name in direct[..i]
  {
    assert direct[..i + 1] == direct[..i] + [direct[i]];
  }

  /** The counts a window carries are exact: each DIRECT attribute's groups, nothing else. */
  ghost predicate ExactCounts(s: Scope, es: seq<DecisionEvent>, direct: seq<string>, groups: seq<GroupCount>) {
    && (forall name :: name in direct ==> IsGroupBy(s, es, name, OfAttribute(groups, name)))
    && (forall name :: name !in direct ==> OfAttribute(groups, name) == [])
  }

  /** The rows of each attribute's query, one attribute after another. */
  function GroupCountsOf(direct: seq<string>, query: string -> seq<GroupCount>): seq<GroupCount> {
    if direct == [] then [] else GroupCountsOf(direct[..|direct| - 1], query) + query(direct[|direct| - 1])
  }

  /** `query` answers the query of each attribute over these events. */
  ghost predicate Answers(s: Scope, es: seq<DecisionEvent>, direct: seq<string>, query: string -> seq<GroupCount>) {
    && (forall name :: name in direct ==> IsGroupBy(s, es, name, query(name)))
    && (forall i, j :: 0 <= i < j < |direct| ==> direct[i] != direct[j])
  }

  lemma {:induction false} CountsByAttribute(s: Scope, es: seq<DecisionEvent>, direct: seq<string>,
                                             query: string -> seq<GroupCount>, name: string)
    requires Answers(s, es, direct, query)
    ensures OfAttribute(GroupCountsOf(direct, query), name) == if name in direct then query(name) else []
  {
    if direct != [] {
      var (n, own) := (|direct| - 1, direct[|direct| - 1]);
      assert direct[..n + 1] == direct && own in direct && own !in direct[..n];
      CountsByAttribute(s, es, direct[..n], query, name);
      CountsByAttribute(s, es, direct[..n], query, own);
      FirstNames(direct, n, name);
      OfAttributeExtend(GroupCountsOf(direct[..n], query), query(own), own, name);
    }
  }

  lemma CountsExact(s: Scope, es: seq<DecisionEvent>, direct: seq<string>, query: string -> seq<GroupCount>)
    requires Answers(s, es, direct, query)
    ensures ExactCounts(s, es, direct, GroupCountsOf(direct, query))
  {
    forall name ensures OfAttribute(GroupCountsOf(direct, query), name) == if name in direct then query(name) else [] {
      CountsByAttribute(s, es, direct, query, name);
    }
  }

  /** `build_population_window`: `query` is what the database answers per attribute, and the
      counts are exact for whatever events it answers over. */
  method BuildGroupCounts(direct: seq<string>, query: string -> seq<GroupCount>) returns (groups: seq<GroupCount>)
    ensures groups == GroupCountsOf(direct, query)
    ensures forall s, es :: Answers(s, es, direct, query) ==> ExactCounts(s, es, direct, groups)
  {
    groups := [];
    for i := 0 to |direct|
      invariant groups == GroupCountsOf(direct[..i], query)
    {
      assert direct[..i + 1][..i] == direct[..i];
      groups := groups + query(direct[i]);
    }
    assert direct[..|direct|] == direct;
    forall s, es | Answers(s, es, direct, query) ensures ExactCounts(s, es, direct, groups) {
      CountsExact(s, es, direct, query);
    }
  }
}
